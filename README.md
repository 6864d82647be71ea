# Matrix multiplication service: verified model

The service accepts TCP connections. On each connection it reads length-prefixed Protocol
Buffers `MatrixRequest` frames. A frame is a 4-byte big-endian unsigned length, then that many
payload bytes. For each request it builds two dense matrices, fills them from the request's
row data, multiplies them with the naive triple loop, and writes back one length-prefixed
`MatrixResponse`. The response echoes the request id and holds the product's shape and its
elements in iteration order.

The project models the two core files:

- `matrix.dfy`, module `Matrices`: the engine of `src/matrix.rs`.
  - `Matrix` is a class with the fields `r`, `c`, `e` (the vector of rows) and `i` (the
    iterator cursor).
  - Its methods are the constructor, `Shape`, `At`/`Put` (the `Index`/`IndexMut` chains),
    `Fill`, `Next` and `Collect`.
  - `Mul` is the product, with its innermost loop in `AccumulateCell`.
  - Every method is proved against a specification function on values:
    - `Zeros` for the constructor.
    - `Flatten`, the row-major elements, for `At` and `Put`: `At` reads index `x * c + y`,
      and `Put` writes that index and nothing else (`FlattenUpdate`).
    - `FillFrom` for `Fill`: one step per item, panicking as the Rust code does.
    - `Flatten` for the row-major elements seen by `Next` and `Collect`.
    - `Product`/`Dot` for `Mul`.
  - The properties are proved about those functions.
- `server.dfy`, module `Server`: the frame reader `Decode::decode` and the loop of `client` in
  `src/main.rs`.
  - `Connection` is a class holding what the peer sends (`input`), the read cursor (`pos`) and
    the bytes written back (`output`).
  - `Decode`, `Handle` (the body of the loop for one request) and `Client` are proved against
    the functions `ReadFrame`, `Respond` and `Session`.
  - `SessionAnswers` and `ResponsesInOrder` then state what the whole conversation looks like.
- `arith.dfy`, module `Arith`: small facts about products, quotients and remainders of naturals
  used by the row-major index arithmetic.
- `wrappers.dfy`, module `Wrappers`: the `Option` type.

A Rust panic is an explicit outcome in the model:

- `Fault` says why the engine panics: `Exhausted` for `it.next().unwrap()` on an exhausted
  iterator, `RowOutOfRange` for a row index past the end.
- `Mul` returns `null` when it panics.
- `At` and `Put` return `None` and `false` out of range.
- `Respond` returns `Abort` when the loop body panics, and `Client` ends `Panicked`.

Behaviour of the code that the model keeps as written:

- `fill` computes the row of step `k` as `k / r`, not `k / c`. The model follows the code:
  - On a square matrix it fills row-major (`FillSquare`).
  - With more rows than columns, it never writes rows `c..r-1` (`FillLeavesRowsFrom`).
  - With at least one row and more columns than rows, it always panics: it runs out of
    items, or it indexes row `r` (`FillOutcome`, `RespondWideOperandPanics`). With no rows
    it writes nothing and returns.
  - In a Rust assignment the assigned value is evaluated before the place. So the item is
    pulled, and may panic as `Exhausted`, before the row is indexed.
- `mul` has no dimension check. It panics exactly when some cell is visited (`a.r > 0` and `b.c > 0`)
  and `a.c > b.r`. When `a.c < b.r`, it silently uses only the first `a.c` rows of `b`
  (`ProductIgnoresRowsFrom`).
- The only framing is the length-prefixed Protocol Buffers one.

## Model

| member | source | states |
|---|---|---|
| Matrices.Matrix.constructor | src/matrix.rs:15-21 | `new` builds `r` rows of `c` zeros (`Zeros(r, c)`), so `shape()` is `(r, c)`, and starts the cursor at 0 |
| Matrices.Matrix.Shape | src/matrix.rs:31-33 | `shape` returns dimensions that describe the storage, and their product is the number of elements iteration yields |
| Matrices.Matrix.At | src/matrix.rs:36-56 | `self[x][y]` reads exactly when `0 <= x < r` and `0 <= y < c`, and then yields element `x * c + y` of the row-major order; otherwise Rust panics |
| Matrices.Matrix.Put | src/matrix.rs:44-62 | `self[x][y] = v` keeps the shape, succeeds exactly when `0 <= x < r` and `0 <= y < c`, and then changes element `x * c + y` of the row-major order and nothing else; otherwise nothing changes |
| Matrices.FlattenUpdate | src/matrix.rs:44-62 | writing cell `(x, y)` of an `r` by `c` storage writes index `x * c + y` of its row-major order and nothing else |
| Matrices.FillFrom | src/matrix.rs:23-29 | each step of `fill` keeps the storage `r` rows of `c` elements; step `k` stops at `r * c`, panics `Exhausted` with no item left and `RowOutOfRange` when `k / r >= r`, and otherwise writes item `k` at `(k / r, k % c)` and goes on (`FillStep` unfolds one step for the proofs) |
| Matrices.Matrix.Fill | src/matrix.rs:23-29 | the loop leaves the storage and the panic that `FillFrom` specifies, and keeps shape and cursor |
| Matrices.RowInRange | src/matrix.rs:25 | row `k / r` exists exactly when `k < r * r` |
| Matrices.FillOutcome | src/matrix.rs:23-29 | `fill` returns iff the matrix is empty or (`c <= r` and there are at least `r * c` items); `Exhausted` iff fewer items than `min(r * c, r * r + 1)`; `RowOutOfRange` iff `r < c` and more than `r * r` items |
| Matrices.FillSquareCell | src/matrix.rs:24-27 | on a square matrix, cell `(x, y)` ends up holding item `x * r + y` if its step still has to run, and is untouched otherwise |
| Matrices.SquareWrite | src/matrix.rs:25-27 | on a square matrix, step `k` writes cell `(x, y)` exactly when `k == x * r + y` |
| Matrices.FillSquareAt | src/matrix.rs:23-29 | on a square matrix, index `k` of the filled storage in row-major order is item `k` |
| Matrices.FillSquare | src/matrix.rs:23-29 | on a square matrix with enough items, `fill` returns, and the storage in row-major order is exactly the first `r * r` items, whatever it held before |
| Matrices.FillLeavesRowsFrom | src/matrix.rs:24-27 | with more rows than columns, rows `c` to `r - 1` are never written |
| Matrices.FillReadsFirstItems | src/matrix.rs:24-27 | items after the first `r * c` never affect the outcome |
| Matrices.FlattenLength | src/matrix.rs:88 | an `r` by `c` storage has `r * c` elements in row-major order |
| Matrices.FlattenAt | src/matrix.rs:91 | element `(x, y)` sits at index `x * c + y` of the row-major order |
| Matrices.FlattenIndex | src/matrix.rs:91 | index `k` of the row-major order is element `(k / c, k % c)` |
| Matrices.FlattenInjective | src/matrix.rs:84-94 | two storages of one shape that iterate the same elements are equal |
| Matrices.Matrix.Elements | src/matrix.rs:84-94 | the sequence iteration yields has exactly `r * c` elements |
| Matrices.Matrix.Next | src/matrix.rs:87-94 | `next` yields `None` and keeps the cursor at the end; otherwise it yields the element at the cursor in row-major order and advances by one |
| Matrices.Matrix.Collect | src/main.rs:67 | `collect()` yields the elements from the cursor to the end, in row-major order, and leaves the cursor at the end |
| Matrices.Product | src/matrix.rs:67-81 | the product is `m` rows of `n` cells, each the sum `Dot` accumulated over increasing `k` |
| Matrices.DotUsesFirstRows | src/matrix.rs:75-77 | the sum for a cell reads only rows `k < p` of `b` |
| Matrices.ProductIgnoresRowsFrom | src/matrix.rs:71-77 | the product does not depend on rows of `b` at or past `a.c`, so a taller `b` is silently accepted |
| Matrices.ProductIdentity | src/matrix.rs:64-82 | multiplying by the identity gives the left operand back |
| Matrices.MulProgressStep | src/matrix.rs:71-77 | finishing one cell moves the row-major progress of `mul` on to the next cell |
| Matrices.MulProgressDone | src/matrix.rs:71-80 | once every cell is finished, the storage is the product |
| Matrices.AccumulateCell | src/matrix.rs:75-77 | the inner loop panics exactly when `a.c > b.r`; otherwise cell `(i, j)` ends up holding its sum and nothing else changes |
| Matrices.Mul | src/matrix.rs:67-81 | `a * b` panics iff `a.r > 0`, `b.c > 0` and `a.c > b.r`; otherwise it returns a new `a.r` by `b.c` matrix holding `Product`, with its cursor at 0 |
| Server.BigEndianU32 | src/main.rs:35 | four bytes read most significant first give a value below 2^32 |
| Server.U32ToBigEndian | src/main.rs:72 | `to_be_bytes` gives four bytes that read back as the value |
| Server.BigEndianBytesRoundTrip | src/main.rs:35 | writing back a length read from four bytes gives the same four bytes |
| Server.ReadFrame | src/main.rs:30-39 | a frame is complete iff the 4 length bytes and then that many payload bytes are present; the payload has that length and reading resumes right after it |
| Server.FrameRoundTrip | src/main.rs:70-74 | a frame as `client` writes it, anywhere in a stream, reads back as its payload and ends where it was written |
| Server.FrameIsEncoded | src/main.rs:31-38 | the bytes a complete frame occupies are exactly the frame written for its payload |
| Server.ReadFramesRoundTrip | src/main.rs:70-74 | reading back a run of frames gives the payloads they were written from, in order |
| Server.Connection.ReadExact | src/main.rs:34 | `read_exact(n)` yields the next `n` bytes and advances, or fails when the stream ends first |
| Server.Connection.WriteAll | src/main.rs:73-74 | `write_all` appends the bytes to what the peer receives |
| Server.Connection.Decode | src/main.rs:30-40 | `decode` yields the decoded payload of the frame at the cursor and moves past it, and fails for a cut frame |
| Server.Respond | src/main.rs:51-68 | an answer echoes the request id, has `matrix1.rows` rows and `matrix2.cols` columns and that many elements |
| Server.RespondRepliesIff | src/main.rs:51-60 | a request is answered iff both operands are present, each fills without a panic and the product does not index a missing row of `matrix2` |
| Server.RespondWideOperandPanics | src/main.rs:54-55 | a first operand with at least one row and more columns than rows always panics in `fill` |
| Server.RespondSquare | src/main.rs:51-68 | two `n` by `n` operands sent row-major are answered with their product, row-major |
| Server.RespondExample | src/main.rs:51-68 | request 42 with `[[1,2],[3,4]]` and `[[5,6],[7,8]]` is answered with id 42 and `[19,22,43,50]` |
| Server.Connection.Handle | src/main.rs:51-68 | running the body of the loop on one request gives exactly the answer or panic of `Respond` |
| Server.EncodeFrame | src/main.rs:72-74 | a response frame is 4 length bytes that read back as the payload length modulo 2^32 (the `as u32` cast), followed by exactly the payload |
| Server.Session | src/main.rs:45-78 | the bytes `client` writes reading from `pos`, and how it ends; it writes something exactly when the first frame decodes to a request it can answer, and then that answer's frame comes first and the loop carries on after the request's frame (`SessionReplyStep`) |
| Server.Answers | src/main.rs:45-76 | the responses are one per request, in order, each the encoding of its answer, up to the first request that panics |
| Server.SessionAnswers | src/main.rs:43-79 | `client` writes exactly the frames of the answers in request order; it ends cleanly iff every decoded request was answered, and otherwise panics for the first one that was not |
| Server.ResponsesInOrder | src/main.rs:43-79 | the peer reads back one response payload per answered request, in request order |
| Server.Connection.constructor | src/main.rs:43 | a connection starts with nothing read and nothing written |
| Server.Connection.Client | src/main.rs:43-79 | the loop writes exactly the bytes `Session` specifies and ends as it specifies |

## Left out

- `main` (src/main.rs:81-98) is not modelled: argument parsing, binding, the accept loop and
  `task::spawn`. Each connection is modelled on its own; connections share no state.
- The `println!` logging is not modelled.
- The Protocol Buffers codec is generated code and is not part of this model. `decode` and
  `encode` are parameters, and a decode error is `None`. The written length is taken to be
  the length of the encoded buffer.
- The socket is modelled as the finite sequence of bytes the peer sends before closing and the
  sequence written back. I/O errors other than the end of the stream are not modelled. A
  short `read_exact` is modelled as consuming the rest of the input.
- Server.Connection.WriteAll: does not model a failed write, which panics on `unwrap` in
  `client`.
- The `u32` arithmetic of the engine is not modelled: `r * c` and `a.r * b.c` could
  overflow, which panics in a debug build and wraps in a release build.
  Shapes are naturals.
- The element type `T` is instantiated to unbounded integers with default `0`. Overflow of
  element arithmetic and floating point are not modelled.
- Matrices.Matrix.Collect: `collect()` is the standard library's loop over `next`, modelled
  as that loop.
- Server.ResponsesInOrder: assumes every encoded response is shorter than 2^32 bytes. Beyond
  that, `encoded_len() as u32` truncates the length prefix and the peer misreads the stream.
  `SessionAnswers` and `Client` hold without this assumption and write the truncated length.
- `Mul` takes both operands by value in Rust. The model reads them and does not move them;
  ownership is not modelled.
