/** Per-connection request handling of `src/main.rs`, with the socket abstracted as the bytes
    the peer sends before closing (read through a cursor) and the bytes written back. Frames
    are a 4-byte big-endian unsigned length followed by that many payload bytes. The Protocol
    Buffers codec is not part of this model: `decode` and `encode` are parameters. */
module Server {
  import opened Wrappers
  import opened Matrices

  newtype byte = x: int | 0 <= x < 256

  /** One more than the largest `u32`. */
  const U32_LIMIT: nat := 0x1_0000_0000

  /** `BigEndian::read_u32`: four bytes, most significant first. */
  function BigEndianU32(b: seq<byte>): (n: nat)
    requires |b| == 4
    ensures n < U32_LIMIT
  {
    ((b[0] as int * 256 + b[1] as int) * 256 + b[2] as int) * 256 + b[3] as int
  }

  /** `u32::to_be_bytes`, the inverse of `BigEndianU32`. */
  function U32ToBigEndian(n: nat): (b: seq<byte>)
    requires n < U32_LIMIT
    ensures |b| == 4 && BigEndianU32(b) == n
  {
    var q1 := n / 256;
    var q2 := q1 / 256;
    var q3 := q2 / 256;
    [q3 as byte, (q2 % 256) as byte, (q1 % 256) as byte, (n % 256) as byte]
  }

  /** Reading four bytes as a length and writing the length back gives the same bytes. */
  lemma BigEndianBytesRoundTrip(b: seq<byte>)
    requires |b| == 4
    ensures U32ToBigEndian(BigEndianU32(b)) == b
  {
    var n := BigEndianU32(b);
    assert n / 0x100_0000 == b[0] as int;
    assert n / 0x1_0000 % 256 == b[1] as int;
    assert n / 0x100 % 256 == b[2] as int;
    assert n % 256 == b[3] as int;
  }

  /** `matrix_proto::Matrix`: a shape and its data in row-major order. */
  datatype ProtoMatrix = ProtoMatrix(rows: nat, cols: nat, data: seq<int>)

  /** `MatrixRequest`: an opaque id and two optional operands. */
  datatype MatrixRequest = MatrixRequest(id: int, matrix1: Option<ProtoMatrix>, matrix2: Option<ProtoMatrix>)

  /** `MatrixResponse`: the id of the request and the product. */
  datatype MatrixResponse = MatrixResponse(id: int, matrix: Option<ProtoMatrix>)

  /** A frame read at a position of the input: either the input ends first, or the payload
      and the position after it. */
  datatype Frame = Truncated | Complete(payload: seq<byte>, next: nat)

  /** The frame `Decode::decode` reads at `pos`: `read_exact` of 4 length bytes, then of
      `L` payload bytes, where `L` is the big-endian length. */
  function ReadFrame(input: seq<byte>, pos: nat): (f: Frame)
    requires pos <= |input|
    ensures f.Complete? <==>
              pos + 4 <= |input| && pos + 4 + BigEndianU32(input[pos..pos + 4]) <= |input|
    ensures f.Complete? ==> pos + 4 + |f.payload| == f.next <= |input|
    ensures f.Complete? ==> |f.payload| == BigEndianU32(input[pos..pos + 4])
  {
    if |input| - pos < 4 then Truncated
    else
      var len := BigEndianU32(input[pos..pos + 4]);
      if |input| - (pos + 4) < len then Truncated
      else Complete(input[pos + 4..pos + 4 + len], pos + 4 + len)
  }

  /** A response frame as `client` writes it: `encoded_len() as u32` in big-endian, then the
      payload. The cast keeps the length modulo 2^32. */
  function EncodeFrame(payload: seq<byte>): (frame: seq<byte>)
    ensures |frame| == 4 + |payload| && frame[4..] == payload
    ensures BigEndianU32(frame[..4]) == |payload| % U32_LIMIT
  {
    U32ToBigEndian(|payload| % U32_LIMIT) + payload
  }

  /** Reading a frame that `client` wrote, wherever it sits in the stream, gives back its
      payload and the position just after it. */
  lemma FrameRoundTrip(before: seq<byte>, payload: seq<byte>, after: seq<byte>)
    requires |payload| < U32_LIMIT
    ensures ReadFrame(before + EncodeFrame(payload) + after, |before|) ==
            Complete(payload, |before| + 4 + |payload|)
  {
    var frame := EncodeFrame(payload);
    var input := before + frame + after;
    var pos := |before|;
    assert input[pos..pos + 4] == frame[..4];
    assert input[pos + 4..pos + 4 + |payload|] == frame[4..];
  }

  /** The bytes a complete frame occupies are exactly the encoding of its payload. */
  lemma FrameIsEncoded(input: seq<byte>, pos: nat)
    requires pos <= |input| && ReadFrame(input, pos).Complete?
    ensures input[pos..ReadFrame(input, pos).next] == EncodeFrame(ReadFrame(input, pos).payload)
  {
    var f := ReadFrame(input, pos);
    var header := input[pos..pos + 4];
    assert U32ToBigEndian(|f.payload| % U32_LIMIT) == header by {
      BigEndianBytesRoundTrip(header);
    }
    assert input[pos..f.next] == header + f.payload;
  }

  /** Why handling a request panics: an `unwrap` on a missing operand, or the engine. */
  datatype Panic = MissingMatrix | Engine(fault: Fault)

  /** The result of handling one request. */
  datatype Outcome = Reply(response: MatrixResponse) | Abort(panic: Panic)

  /** The body of the loop in `client` for a decoded request: unwrap both operands, build and
      fill `a` and then `b`, multiply, and answer with the request's id, the product's shape
      and its elements in row-major order. */
  function Respond(req: MatrixRequest): (o: Outcome)
    ensures o.Reply? ==> req.matrix1.Some? && req.matrix2.Some? && o.response.id == req.id
    ensures o.Reply? ==>
              && o.response.matrix.Some?
              && o.response.matrix.value.rows == req.matrix1.value.rows
              && o.response.matrix.value.cols == req.matrix2.value.cols
              && |o.response.matrix.value.data| == o.response.matrix.value.rows * o.response.matrix.value.cols
  {
    if req.matrix1.None? || req.matrix2.None? then Abort(MissingMatrix)
    else
      var m1, m2 := req.matrix1.value, req.matrix2.value;
      var (ea, fa) := FillFrom(Zeros(m1.rows, m1.cols), m1.rows, m1.cols, m1.data, 0);
      if fa.Some? then Abort(Engine(fa.value))
      else
        var (eb, fb) := FillFrom(Zeros(m2.rows, m2.cols), m2.rows, m2.cols, m2.data, 0);
        if fb.Some? then Abort(Engine(fb.value))
        else if m1.rows > 0 && m2.cols > 0 && m1.cols > m2.rows then Abort(Engine(RowOutOfRange))
        else
          var prod := Product(ea, eb, m1.rows, m1.cols, m2.cols);
          FlattenLength(prod, m1.rows, m2.cols);
          Reply(MatrixResponse(req.id, Some(ProtoMatrix(m1.rows, m2.cols, Flatten(prod)))))
  }

  /** `fill` on a fresh matrix of this shape returns without panicking. */
  predicate Fills(m: ProtoMatrix) {
    m.rows * m.cols == 0 || (m.cols <= m.rows && |m.data| >= m.rows * m.cols)
  }

  /** A request is answered exactly when both operands are present, each fills without a
      panic, and the product does not index a row of `matrix2` that does not exist. */
  lemma RespondRepliesIff(req: MatrixRequest)
    ensures Respond(req).Reply? <==>
              req.matrix1.Some? && req.matrix2.Some? &&
              Fills(req.matrix1.value) && Fills(req.matrix2.value) &&
              !(req.matrix1.value.rows > 0 && req.matrix2.value.cols > 0 &&
                req.matrix1.value.cols > req.matrix2.value.rows)
  {
    if req.matrix1.Some? && req.matrix2.Some? {
      var m1, m2 := req.matrix1.value, req.matrix2.value;
      FillOutcome(Zeros(m1.rows, m1.cols), m1.rows, m1.cols, m1.data);
      FillOutcome(Zeros(m2.rows, m2.cols), m2.rows, m2.cols, m2.data);
    }
  }

  /** A first operand with at least one row and more columns than rows always panics in `fill`,
      so even a well-formed
      row vector times column vector request is never answered. */
  lemma RespondWideOperandPanics(req: MatrixRequest)
    requires req.matrix1.Some? && req.matrix2.Some?
    requires var m1 := req.matrix1.value; 0 < m1.rows < m1.cols
    ensures Respond(req).Abort? && Respond(req).panic.Engine?
  {
    var m1 := req.matrix1.value;
    FillOutcome(Zeros(m1.rows, m1.cols), m1.rows, m1.cols, m1.data);
    assert m1.rows * m1.cols > 0 by {
      Arith.MulMonotone(1, m1.rows, m1.cols);
    }
  }

  /** Two `n` by `n` operands sent in row-major order are answered with their product in
      row-major order. */
  lemma RespondSquare(id: int, a: seq<seq<int>>, b: seq<seq<int>>, n: nat)
    requires Shaped(a, n, n) && Shaped(b, n, n)
    ensures Respond(MatrixRequest(id, Some(ProtoMatrix(n, n, Flatten(a))), Some(ProtoMatrix(n, n, Flatten(b))))) ==
            Reply(MatrixResponse(id, Some(ProtoMatrix(n, n, Flatten(Product(a, b, n, n, n))))))
  {
    FlattenLength(a, n, n);
    FlattenLength(b, n, n);
    FillSquare(Zeros(n, n), n, Flatten(a));
    FillSquare(Zeros(n, n), n, Flatten(b));
    var ea := FillFrom(Zeros(n, n), n, n, Flatten(a), 0).0;
    var eb := FillFrom(Zeros(n, n), n, n, Flatten(b), 0).0;
    assert Flatten(a)[..n * n] == Flatten(a);
    assert Flatten(b)[..n * n] == Flatten(b);
    FlattenInjective(ea, a, n, n);
    FlattenInjective(eb, b, n, n);
  }

  /** Request 42 with operands `[[1, 2], [3, 4]]` and `[[5, 6], [7, 8]]` is answered with id
      42 and `[[19, 22], [43, 50]]`. */
  lemma RespondExample()
    ensures Respond(MatrixRequest(42, Some(ProtoMatrix(2, 2, [1, 2, 3, 4])), Some(ProtoMatrix(2, 2, [5, 6, 7, 8])))) ==
            Reply(MatrixResponse(42, Some(ProtoMatrix(2, 2, [19, 22, 43, 50]))))
  {
    var a, b := [[1, 2], [3, 4]], [[5, 6], [7, 8]];
    assert Flatten(a) == [1, 2, 3, 4];
    assert Flatten(b) == [5, 6, 7, 8];
    RespondSquare(42, a, b, 2);
    var p := Product(a, b, 2, 2, 2);
    assert p[0][0] == 19 && p[0][1] == 22 && p[1][0] == 43 && p[1][1] == 50;
    assert p[0] == [19, 22] && p[1] == [43, 50];
    assert p == [[19, 22], [43, 50]];
    assert Flatten(p) == [19, 22, 43, 50];
  }

  /** How `client` ends: `Ok(())` after a failed decode, or a panic. */
  datatype End = Closed | Panicked(panic: Panic)

  /** What `client` writes, and how it ends, reading the input from `pos`: it stops cleanly
      at the first frame that is cut short or whose payload does not decode, stops with a
      panic at the first request it cannot answer, and otherwise writes one response frame
      and goes on after the request's frame. */
  function Session(input: seq<byte>, pos: nat, decode: seq<byte> -> Option<MatrixRequest>,
                   encode: MatrixResponse -> seq<byte>): (res: (seq<byte>, End))
    requires pos <= |input|
    ensures res.0 != [] <==>
              ReadFrame(input, pos).Complete? && decode(ReadFrame(input, pos).payload).Some? &&
              Respond(decode(ReadFrame(input, pos).payload).value).Reply?
    decreases |input| - pos
  {
    match ReadFrame(input, pos)
    case Truncated => ([], Closed)
    case Complete(payload, next) =>
      match decode(payload)
      case None => ([], Closed)
      case Some(req) =>
        match Respond(req)
        case Abort(why) => ([], Panicked(why))
        case Reply(response) =>
          var rest := Session(input, next, decode, encode);
          (EncodeFrame(encode(response)) + rest.0, rest.1)
  }

  /** One answered request: `client` writes its frame and carries on after it. */
  lemma SessionReplyStep(input: seq<byte>, pos: nat, decode: seq<byte> -> Option<MatrixRequest>,
                         encode: MatrixResponse -> seq<byte>, response: MatrixResponse)
    requires pos <= |input| && ReadFrame(input, pos).Complete?
    requires var req := decode(ReadFrame(input, pos).payload);
             req.Some? && Respond(req.value) == Reply(response)
    ensures var rest := Session(input, ReadFrame(input, pos).next, decode, encode);
            Session(input, pos, decode, encode) == (EncodeFrame(encode(response)) + rest.0, rest.1)
  {
  }

  /** The requests that decode from `input` at `pos`, in order, up to the first frame that is
      cut short or does not decode. */
  function Requests(input: seq<byte>, pos: nat, decode: seq<byte> -> Option<MatrixRequest>): seq<MatrixRequest>
    requires pos <= |input|
    decreases |input| - pos
  {
    match ReadFrame(input, pos)
    case Truncated => []
    case Complete(payload, next) =>
      match decode(payload)
      case None => []
      case Some(req) => [req] + Requests(input, next, decode)
  }

  /** The encoded responses to `reqs`, in order, up to the first request that is not answered. */
  function Answers(reqs: seq<MatrixRequest>, encode: MatrixResponse -> seq<byte>): (payloads: seq<seq<byte>>)
    ensures |payloads| <= |reqs|
    ensures forall k :: 0 <= k < |payloads| ==>
              Respond(reqs[k]).Reply? && payloads[k] == encode(Respond(reqs[k]).response)
    ensures |payloads| < |reqs| ==> Respond(reqs[|payloads|]).Abort?
  {
    if reqs == [] then []
    else
      match Respond(reqs[0])
      case Abort(_) => []
      case Reply(response) => [encode(response)] + Answers(reqs[1..], encode)
  }

  /** The frames of `payloads`, one after the other. */
  function EncodeFrames(payloads: seq<seq<byte>>): seq<byte> {
    if payloads == [] then [] else EncodeFrame(payloads[0]) + EncodeFrames(payloads[1..])
  }

  /** The payloads of the complete frames at the front of `s`, as a peer reads them. */
  function ReadFrames(s: seq<byte>): seq<seq<byte>>
    decreases |s|
  {
    match ReadFrame(s, 0)
    case Truncated => []
    case Complete(payload, next) => [payload] + ReadFrames(s[next..])
  }

  /** Reading back a run of frames gives the payloads they were written from. */
  lemma {:induction false} ReadFramesRoundTrip(payloads: seq<seq<byte>>)
    requires forall k :: 0 <= k < |payloads| ==> |payloads[k]| < U32_LIMIT
    ensures ReadFrames(EncodeFrames(payloads)) == payloads
  {
    if payloads != [] {
      var p, rest := payloads[0], EncodeFrames(payloads[1..]);
      FrameRoundTrip([], p, rest);
      assert [] + EncodeFrame(p) + rest == EncodeFrames(payloads);
      assert EncodeFrames(payloads)[4 + |p|..] == rest;
      ReadFramesRoundTrip(payloads[1..]);
    }
  }

  /** `client` writes exactly one frame per answered request, in request order, and nothing
      else; it ends cleanly exactly when every decoded request was answered, and otherwise
      panics on the first request it cannot answer. */
  lemma {:induction false} SessionAnswers(input: seq<byte>, pos: nat, decode: seq<byte> -> Option<MatrixRequest>,
                                          encode: MatrixResponse -> seq<byte>)
    requires pos <= |input|
    ensures var reqs := Requests(input, pos, decode);
            var answers := Answers(reqs, encode);
            Session(input, pos, decode, encode).0 == EncodeFrames(answers) &&
            (Session(input, pos, decode, encode).1 == Closed <==> |answers| == |reqs|) &&
            (Session(input, pos, decode, encode).1.Panicked? ==>
               Respond(reqs[|answers|]) == Abort(Session(input, pos, decode, encode).1.panic))
    decreases |input| - pos
  {
    match ReadFrame(input, pos)
    case Truncated =>
    case Complete(payload, next) =>
      match decode(payload)
      case None =>
      case Some(req) =>
        var reqs := Requests(input, pos, decode);
        assert reqs == [req] + Requests(input, next, decode);
        assert reqs[1..] == Requests(input, next, decode);
        match Respond(req)
        case Abort(_) =>
        case Reply(response) =>
          SessionAnswers(input, next, decode, encode);
  }

  /** A peer reading the frames `client` wrote gets one payload per answered request, in
      request order, provided every encoded response fits the 32-bit length prefix. */
  lemma ResponsesInOrder(input: seq<byte>, pos: nat, decode: seq<byte> -> Option<MatrixRequest>,
                         encode: MatrixResponse -> seq<byte>)
    requires pos <= |input|
    requires forall response :: |encode(response)| < U32_LIMIT
    ensures ReadFrames(Session(input, pos, decode, encode).0) == Answers(Requests(input, pos, decode), encode)
  {
    SessionAnswers(input, pos, decode, encode);
    ReadFramesRoundTrip(Answers(Requests(input, pos, decode), encode));
  }

  /** Concatenation is associative: bytes written in two calls extend the output as one. */
  lemma AppendAssoc<T>(a: seq<T>, b: seq<T>, c: seq<T>)
    ensures a + b + c == a + (b + c)
  {
  }

  /** A client connection: the bytes the peer sends before closing, how far they have been
      read, and the bytes written back. */
  class Connection {
    const input: seq<byte>
    var pos: nat
    var output: seq<byte>

    ghost predicate Valid()
      reads this
    {
      pos <= |input|
    }

    constructor (input: seq<byte>)
      ensures Valid() && this.input == input && pos == 0 && output == []
    {
      this.input := input;
      pos, output := 0, [];
    }

    /** `read_exact`: the next `n` bytes, or `None` when the stream ends first, after which
        nothing is left to read. */
    method ReadExact(n: nat) returns (buf: Option<seq<byte>>)
      requires Valid()
      modifies this`pos
      ensures Valid()
      ensures old(pos) + n <= |input| ==> buf == Some(input[old(pos)..old(pos) + n]) && pos == old(pos) + n
      ensures old(pos) + n > |input| ==> buf == None && pos == |input|
    {
      if pos + n <= |input| {
        buf := Some(input[pos..pos + n]);
        pos := pos + n;
      } else {
        buf := None;
        pos := |input|;
      }
    }

    /** `write_all`. */
    method WriteAll(bytes: seq<byte>)
      modifies this`output
      ensures output == old(output) + bytes
    {
      output := output + bytes;
    }

    /** `Decode::decode` for `MatrixRequest`: reads the frame at the cursor and decodes its
        payload; `None` for a short read or a payload that does not decode. */
    method Decode(decode: seq<byte> -> Option<MatrixRequest>) returns (req: Option<MatrixRequest>)
      requires Valid()
      modifies this`pos
      ensures Valid()
      ensures ReadFrame(input, old(pos)).Truncated? ==> req == None && pos == |input|
      ensures ReadFrame(input, old(pos)).Complete? ==>
                req == decode(ReadFrame(input, old(pos)).payload) && pos == ReadFrame(input, old(pos)).next
    {
      var lengthBuffer := ReadExact(4);
      if lengthBuffer.None? {
        return None;
      }
      var messageLength := BigEndianU32(lengthBuffer.value);
      var messageBuffer := ReadExact(messageLength);
      if messageBuffer.None? {
        return None;
      }
      req := decode(messageBuffer.value);
    }

    /** The body of the loop in `client` for one decoded request: unwraps both operands,
        builds and fills `a` and then `b`, multiplies them and collects the product. */
    method Handle(req: MatrixRequest) returns (outcome: Outcome)
      ensures outcome == Respond(req)
    {
      if req.matrix1.None? || req.matrix2.None? {
        return Abort(MissingMatrix);
      }
      var matrix1, matrix2 := req.matrix1.value, req.matrix2.value;

      var a := new Matrix(matrix1.rows, matrix1.cols);
      var faultA := a.Fill(matrix1.data);
      if faultA.Some? {
        return Abort(Engine(faultA.value));
      }
      var b := new Matrix(matrix2.rows, matrix2.cols);
      var faultB := b.Fill(matrix2.data);
      if faultB.Some? {
        return Abort(Engine(faultB.value));
      }
      var c := Mul(a, b);
      if c == null {
        return Abort(Engine(RowOutOfRange));
      }

      var shape := c.Shape();
      var data := c.Collect();
      return Reply(MatrixResponse(req.id, Some(ProtoMatrix(shape.0, shape.1, data))));
    }

    /** `client`: decodes requests until one fails to decode, answering each with one frame;
        a request it cannot answer panics. */
    method Client(decode: seq<byte> -> Option<MatrixRequest>, encode: MatrixResponse -> seq<byte>)
      returns (end: End)
      requires Valid()
      modifies this`pos, this`output
      ensures Valid()
      ensures output == old(output) + Session(input, old(pos), decode, encode).0
      ensures end == Session(input, old(pos), decode, encode).1
    {
      while true
        invariant Valid()
        invariant old(output) + Session(input, old(pos), decode, encode).0 ==
                  output + Session(input, pos, decode, encode).0
        invariant Session(input, old(pos), decode, encode).1 == Session(input, pos, decode, encode).1
        decreases |input| - pos
      {
        ghost var start, written := pos, output;
        var request := Decode(decode);
        if request.None? {
          return Closed;
        }
        var outcome := Handle(request.value);
        if outcome.Abort? {
          return Panicked(outcome.panic);
        }
        var buf := encode(outcome.response);
        var lenBytes := U32ToBigEndian(|buf| % U32_LIMIT);
        WriteAll(lenBytes);
        WriteAll(buf);
        SessionReplyStep(input, start, decode, encode, outcome.response);
        ghost var rest := Session(input, pos, decode, encode).0;
        AppendAssoc(written, lenBytes, buf);
        AppendAssoc(written, lenBytes + buf, rest);
      }
    }
  }
}
