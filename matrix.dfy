/** The dense matrix engine of `src/matrix.rs`: `r` rows of `c` elements stored as a vector of
    rows, an iteration cursor `i`, construction, `fill`, `shape`, indexing, the naive product and
    row-major iteration. The element type is instantiated to `int` and `T::default()` to `0`;
    a Rust panic is an explicit outcome (`Fault`, `None` or `null`). */
module Matrices {
  import opened Wrappers
  import opened Arith

  /** Why an operation of the engine panics. */
  datatype Fault =
    | Exhausted      // `it.next().unwrap()` in `fill` met the end of the iterator
    | RowOutOfRange  // a row index past the end of the vector of rows

  /** `e` holds exactly `r` rows of `c` elements each. */
  predicate Shaped(e: seq<seq<int>>, r: nat, c: nat) {
    |e| == r && forall x :: 0 <= x < r ==> |e[x]| == c
  }

  /** The storage `Matrix::new(r, c)` builds: `r` rows of `c` zeros. */
  function Zeros(r: nat, c: nat): seq<seq<int>> {
    seq(r, _ => seq(c, _ => 0))
  }

  /** The rows of `e` laid end to end (row-major order). */
  function Flatten(e: seq<seq<int>>): seq<int> {
    if e == [] then [] else e[0] + Flatten(e[1..])
  }

  lemma {:induction false} FlattenLength(e: seq<seq<int>>, r: nat, c: nat)
    requires Shaped(e, r, c)
    ensures |Flatten(e)| == r * c
  {
    if e != [] {
      FlattenLength(e[1..], r - 1, c);
      assert (r - 1) * c + c == r * c;
    }
  }

  /** Element `(x, y)` of an `r` by `c` matrix sits at index `x * c + y` of the flattening. */
  lemma {:induction false} FlattenAt(e: seq<seq<int>>, r: nat, c: nat, x: nat, y: nat)
    requires Shaped(e, r, c) && x < r && y < c
    ensures x * c + y < |Flatten(e)| && Flatten(e)[x * c + y] == e[x][y]
  {
    FlattenLength(e, r, c);
    CellIndexBound(x, y, r, c);
    if x > 0 {
      FlattenAt(e[1..], r - 1, c, x - 1, y);
      var j := (x - 1) * c + y;
      assert x * c + y == |e[0]| + j;
      assert Flatten(e) == e[0] + Flatten(e[1..]);
    }
  }

  /** Writing cell `(x, y)` writes index `x * c + y` of the flattening and nothing else. */
  lemma {:induction false} FlattenUpdate(e: seq<seq<int>>, r: nat, c: nat, x: nat, y: nat, v: int)
    requires Shaped(e, r, c) && x < r && y < c
    ensures x * c + y < |Flatten(e)|
    ensures Flatten(e[x := e[x][y := v]]) == Flatten(e)[x * c + y := v]
  {
    FlattenLength(e, r, c);
    CellIndexBound(x, y, r, c);
    var e' := e[x := e[x][y := v]];
    assert Flatten(e) == e[0] + Flatten(e[1..]);
    assert Flatten(e') == e'[0] + Flatten(e'[1..]);
    if x == 0 {
      assert e'[1..] == e[1..];
      assert Flatten(e') == Flatten(e)[y := v];
    } else {
      assert e'[1..] == e[1..][x - 1 := e[x][y := v]];
      FlattenUpdate(e[1..], r - 1, c, x - 1, y, v);
      MulSucc(x - 1, c);
      assert x * c + y == |e[0]| + ((x - 1) * c + y);
      assert Flatten(e') == Flatten(e)[x * c + y := v];
    }
  }

  /** Index `k` of the flattening of an `r` by `c` matrix is element `(k / c, k % c)`. */
  lemma FlattenIndex(e: seq<seq<int>>, r: nat, c: nat, k: nat)
    requires Shaped(e, r, c) && k < r * c
    ensures 0 < c && k / c < r && k % c < c
    ensures k < |Flatten(e)| && Flatten(e)[k] == e[k / c][k % c]
  {
    PositiveFactors(r, c);
    var x, y := k / c, k % c;
    assert x < r by {
      RowBound(k, r, c);
    }
    assert k == x * c + y;
    FlattenAt(e, r, c, x, y);
  }

  /** Two matrices of one shape with the same flattening are equal. */
  lemma FlattenInjective(e1: seq<seq<int>>, e2: seq<seq<int>>, r: nat, c: nat)
    requires Shaped(e1, r, c) && Shaped(e2, r, c) && Flatten(e1) == Flatten(e2)
    ensures e1 == e2
  {
    forall x | 0 <= x < r
      ensures e1[x] == e2[x]
    {
      forall y | 0 <= y < c
        ensures e1[x][y] == e2[x][y]
      {
        FlattenAt(e1, r, c, x, y);
        FlattenAt(e2, r, c, x, y);
      }
    }
  }

  /** `fill` from step `k` on, over storage `e` of an `r` by `c` matrix and the items the
      iterator yields: the final storage and the panic that stopped it, if any. Step `k` first
      pulls item `k`, panicking when there is none, then writes it to row `k / r` and column
      `k % c`, panicking when that row does not exist. */
  function FillFrom(e: seq<seq<int>>, r: nat, c: nat, items: seq<int>, k: nat)
    : (res: (seq<seq<int>>, Option<Fault>))
    requires Shaped(e, r, c) && k <= r * c
    ensures Shaped(res.0, r, c)
    decreases r * c - k
  {
    if k == r * c then (e, None)
    else if k >= |items| then (e, Some(Exhausted))
    else
      PositiveFactors(r, c);
      if k / r >= r then (e, Some(RowOutOfRange))
      else FillFrom(e[k / r := e[k / r][k % c := items[k]]], r, c, items, k + 1)
  }

  /** One step of `fill` at `k`: it returns once all `r * c` steps have run; otherwise it
      panics when no item is left or the row does not exist, and else writes the item and
      goes on. */
  lemma FillStep(e: seq<seq<int>>, r: nat, c: nat, items: seq<int>, k: nat)
    requires Shaped(e, r, c) && k <= r * c
    ensures k == r * c ==> FillFrom(e, r, c, items, k) == (e, None)
    ensures k < r * c ==> 0 < r && 0 < c && k % c < c
    ensures k < r * c && k >= |items| ==> FillFrom(e, r, c, items, k) == (e, Some(Exhausted))
    ensures k < r * c && k < |items| && k / r >= r ==> FillFrom(e, r, c, items, k) == (e, Some(RowOutOfRange))
    ensures k < r * c && k < |items| && k / r < r ==>
              FillFrom(e, r, c, items, k) == FillFrom(e[k / r := e[k / r][k % c := items[k]]], r, c, items, k + 1)
  {
    if k < r * c {
      PositiveFactors(r, c);
    }
  }

  /** Writing one cell inside the shape keeps the shape. */
  lemma CellWrite(e: seq<seq<int>>, r: nat, c: nat, x: nat, y: nat, v: int)
    requires Shaped(e, r, c) && x < |e| && y < c
    ensures x < r && |e[x]| == c && Shaped(e[x := e[x][y := v]], r, c)
  {
  }

  /** Row `k / r` exists exactly when `k` is below `r * r`. */
  lemma RowInRange(k: nat, r: nat)
    requires r > 0
    ensures k / r < r <==> k < r * r
  {
    if k < r * r {
      RowBound(k, r, r);
    } else if k / r < r {
      MulMonotone(k / r, r - 1, r);
      assert false;
    }
  }

  /** The outcome of `fill` resumed at step `k` in closed form: it panics at the first step
      `s >= k` with `s >= |items|` (no item left) or `s >= r * r` (row `s / r` out of range),
      provided that step is below `r * c`. */
  function FillVerdict(r: nat, c: nat, n: nat, k: nat): Option<Fault> {
    var first := if n < r * r then n else r * r;
    var s := if k < first then first else k;
    if s >= r * c then None
    else if s >= n then Some(Exhausted)
    else Some(RowOutOfRange)
  }

  lemma {:induction false} FillFaultFrom(e: seq<seq<int>>, r: nat, c: nat, items: seq<int>, k: nat)
    requires Shaped(e, r, c) && k <= r * c
    ensures FillFrom(e, r, c, items, k).1 == FillVerdict(r, c, |items|, k)
    decreases r * c - k
  {
    if k < r * c && k < |items| {
      PositiveFactors(r, c);
      RowInRange(k, r);
      if k / r < r {
        FillFaultFrom(e[k / r := e[k / r][k % c := items[k]]], r, c, items, k + 1);
      }
    }
  }

  lemma FillVerdictFromStart(r: nat, c: nat, n: nat)
    ensures FillVerdict(r, c, n, 0) == None <==> r * c == 0 || (c <= r && n >= r * c)
    ensures FillVerdict(r, c, n, 0) == Some(Exhausted) <==> 0 < r * c && n < r * c && n <= r * r
    ensures FillVerdict(r, c, n, 0) == Some(RowOutOfRange) <==> 0 < r * c && r < c && n > r * r
  {
    var rr, rc := r * r, r * c;
    if rc > 0 {
      PositiveFactors(r, c);
      if c <= r {
        MulMonotone(c, r, r);
        assert rc <= rr;
      } else {
        MulMonotone(r + 1, c, r);
        assert rr < rc;
      }
    }
  }

  /** When `fill` on an `r` by `c` matrix returns and when it panics, and why. It returns
      exactly when the matrix is empty, or it has no more columns than rows and the iterator
      yields at least `r * c` items; so a matrix with at least one row and more columns than
      rows always panics. */
  lemma FillOutcome(e: seq<seq<int>>, r: nat, c: nat, items: seq<int>)
    requires Shaped(e, r, c)
    ensures FillFrom(e, r, c, items, 0).1 == None <==>
            r * c == 0 || (c <= r && |items| >= r * c)
    ensures FillFrom(e, r, c, items, 0).1 == Some(Exhausted) <==>
            0 < r * c && |items| < r * c && |items| <= r * r
    ensures FillFrom(e, r, c, items, 0).1 == Some(RowOutOfRange) <==>
            0 < r * c && r < c && |items| > r * r
  {
    FillFaultFrom(e, r, c, items, 0);
    FillVerdictFromStart(r, c, |items|);
  }

  /** With `r == c`, resumed at step `k` on enough items, `fill` leaves cell `(x, y)` holding
      item `x * r + y` once its step has run, and untouched before. */
  lemma {:induction false} FillSquareCell(e: seq<seq<int>>, r: nat, items: seq<int>, k: nat, x: nat, y: nat)
    requires Shaped(e, r, r) && k <= r * r && |items| >= r * r && x < r && y < r
    ensures x * r + y < r * r
    ensures FillFrom(e, r, r, items, k).1 == None
    ensures FillFrom(e, r, r, items, k).0[x][y] ==
            if k <= x * r + y then items[x * r + y] else e[x][y]
    decreases r * r - k
  {
    CellIndexBound(x, y, r, r);
    FillStep(e, r, r, items, k);
    if k < r * r {
      assert k / r < r by {
        RowInRange(k, r);
      }
      var e' := e[k / r := e[k / r][k % r := items[k]]];
      assert e'[x][y] == if k == x * r + y then items[k] else e[x][y] by {
        SquareWrite(e, r, k, items[k], x, y);
      }
      FillSquareCell(e', r, items, k + 1, x, y);
    }
  }

  /** Step `k` of `fill` on a square matrix writes cell `(x, y)` exactly when `k == x * r + y`. */
  lemma SquareWrite(e: seq<seq<int>>, r: nat, k: nat, v: int, x: nat, y: nat)
    requires Shaped(e, r, r) && x < r && y < r && k / r < r
    ensures e[k / r := e[k / r][k % r := v]][x][y] == if k == x * r + y then v else e[x][y]
  {
    if k == x * r + y {
      DivModUnique(k, r, x, y);
    } else {
      OtherCell(k, r, x, y);
    }
  }

  lemma FillSquareAt(e: seq<seq<int>>, r: nat, items: seq<int>, k: nat)
    requires Shaped(e, r, r) && |items| >= r * r && k < r * r
    ensures k < |Flatten(FillFrom(e, r, r, items, 0).0)|
    ensures Flatten(FillFrom(e, r, r, items, 0).0)[k] == items[k]
  {
    PositiveFactors(r, r);
    RowBound(k, r, r);
    var x, y := k / r, k % r;
    assert k == x * r + y;
    FlattenAt(FillFrom(e, r, r, items, 0).0, r, r, x, y);
    FillSquareCell(e, r, items, 0, x, y);
  }

  /** On a square matrix, `fill` with at least `r * r` items returns, and the matrix then
      holds the first `r * r` items in row-major order, whatever it held before. */
  lemma FillSquare(e: seq<seq<int>>, r: nat, items: seq<int>)
    requires Shaped(e, r, r) && |items| >= r * r
    ensures FillFrom(e, r, r, items, 0).1 == None
    ensures Flatten(FillFrom(e, r, r, items, 0).0) == items[..r * r]
  {
    var res := FillFrom(e, r, r, items, 0).0;
    FlattenLength(res, r, r);
    FillOutcome(e, r, r, items);
    forall k | 0 <= k < r * r
      ensures Flatten(res)[k] == items[k]
    {
      FillSquareAt(e, r, items, k);
    }
  }

  /** With more rows than columns, `fill` never writes rows `c` to `r - 1`: every step `k`
      is below `r * c`, so its row `k / r` is below `c`. */
  lemma {:induction false} FillLeavesRowsFrom(e: seq<seq<int>>, r: nat, c: nat, items: seq<int>, k: nat, x: nat)
    requires Shaped(e, r, c) && k <= r * c && c <= x < r
    ensures FillFrom(e, r, c, items, k).0[x] == e[x]
    decreases r * c - k
  {
    if k < r * c && k < |items| {
      PositiveFactors(r, c);
      if k / r < r {
        RowBound(k, c, r);
        FillLeavesRowsFrom(e[k / r := e[k / r][k % c := items[k]]], r, c, items, k + 1, x);
      }
    }
  }

  /** `fill` pulls at most `r * c` items: whatever the iterator yields after them is never read. */
  lemma {:induction false} FillReadsFirstItems(e: seq<seq<int>>, r: nat, c: nat, items: seq<int>, more: seq<int>, k: nat)
    requires Shaped(e, r, c) && k <= r * c && |items| >= r * c
    ensures FillFrom(e, r, c, items + more, k) == FillFrom(e, r, c, items, k)
    decreases r * c - k
  {
    if k < r * c {
      PositiveFactors(r, c);
      if k / r < r {
        FillReadsFirstItems(e[k / r := e[k / r][k % c := items[k]]], r, c, items, more, k + 1);
      }
    }
  }

  /** `Σ_{k < n} a[i][k] * b[k][j]`, summed in increasing `k` as `mul` accumulates it. */
  function Dot(a: seq<seq<int>>, b: seq<seq<int>>, i: nat, j: nat, n: nat): int
    requires i < |a| && n <= |a[i]| && n <= |b|
    requires forall k :: 0 <= k < n ==> j < |b[k]|
  {
    if n == 0 then 0 else Dot(a, b, i, j, n - 1) + a[i][n - 1] * b[n - 1][j]
  }

  /** The `m` by `n` product of an `m` by `p` matrix `a` and a matrix `b` with rows of `n`
      elements: cell `(i, j)` is `Σ_{k < p} a[i][k] * b[k][j]`. Rows of `b` from `p` on are
      not used. */
  function Product(a: seq<seq<int>>, b: seq<seq<int>>, m: nat, p: nat, n: nat): (prod: seq<seq<int>>)
    requires Shaped(a, m, p) && (m == 0 || n == 0 || p <= |b|)
    requires forall k :: 0 <= k < |b| ==> |b[k]| == n
    ensures Shaped(prod, m, n)
  {
    seq(m, i requires 0 <= i < m => seq(n, j requires 0 <= j < n => Dot(a, b, i, j, p)))
  }

  lemma {:induction false} DotUsesFirstRows(a: seq<seq<int>>, b: seq<seq<int>>, i: nat, j: nat, n: nat, q: nat)
    requires i < |a| && n <= |a[i]| && n <= q <= |b|
    requires forall k :: 0 <= k < n ==> j < |b[k]|
    ensures Dot(a, b, i, j, n) == Dot(a, b[..q], i, j, n)
  {
    if n > 0 {
      DotUsesFirstRows(a, b, i, j, n - 1, q);
    }
  }

  /** The product does not depend on the rows of `b` from `p` on, so `mul` ignores them. */
  lemma ProductIgnoresRowsFrom(a: seq<seq<int>>, b: seq<seq<int>>, m: nat, p: nat, n: nat)
    requires Shaped(a, m, p) && p <= |b|
    requires forall k :: 0 <= k < |b| ==> |b[k]| == n
    ensures Product(a, b, m, p, n) == Product(a, b[..p], m, p, n)
  {
    forall i | 0 <= i < m
      ensures Product(a, b, m, p, n)[i] == Product(a, b[..p], m, p, n)[i]
    {
      forall j | 0 <= j < n
        ensures Product(a, b, m, p, n)[i][j] == Product(a, b[..p], m, p, n)[i][j]
      {
        DotUsesFirstRows(a, b, i, j, p, p);
      }
    }
  }

  /** The `n` by `n` identity matrix. */
  function Identity(n: nat): seq<seq<int>> {
    seq(n, x => seq(n, y => if x == y then 1 else 0))
  }

  lemma {:induction false} DotIdentity(a: seq<seq<int>>, i: nat, j: nat, n: nat, k: nat)
    requires i < |a| && |a[i]| == n && j < n && k <= n
    ensures Dot(a, Identity(n), i, j, k) == if j < k then a[i][j] else 0
  {
    if k > 0 {
      DotIdentity(a, i, j, n, k - 1);
    }
  }

  /** Multiplying by the identity on the right gives the matrix back. */
  lemma ProductIdentity(a: seq<seq<int>>, m: nat, n: nat)
    requires Shaped(a, m, n)
    ensures Product(a, Identity(n), m, n, n) == a
  {
    forall i | 0 <= i < m
      ensures Product(a, Identity(n), m, n, n)[i] == a[i]
    {
      forall j | 0 <= j < n
        ensures Product(a, Identity(n), m, n, n)[i][j] == a[i][j]
      {
        DotIdentity(a, i, j, n, n);
      }
    }
  }

  /** `Matrix<T>`: `r` rows of `c` elements, and the cursor `i` of its `Iterator` impl. */
  class Matrix {
    var r: nat
    var c: nat
    var e: seq<seq<int>>
    var i: nat

    /** The storage is `r` rows of `c` elements and the cursor has not passed the end. */
    ghost predicate Valid()
      reads this
    {
      Shaped(e, r, c) && i <= r * c
    }

    /** `Matrix::new`: pushes `r` rows of `c` zeros; the cursor starts at `0`. */
    constructor (r: nat, c: nat)
      ensures Valid() && this.r == r && this.c == c && e == Zeros(r, c) && i == 0
      ensures Shape() == (r, c)
    {
      var rows: seq<seq<int>> := [];
      for x := 0 to r
        invariant rows == Zeros(x, c)
      {
        rows := rows + [seq(c, _ => 0)];
      }
      this.r, this.c, this.e, this.i := r, c, rows, 0;
    }

    /** `shape()`: the dimensions of the storage. */
    function Shape(): (s: (nat, nat))
      reads this
      requires Valid()
      ensures Shaped(e, s.0, s.1) && s.0 * s.1 == |Elements()|
    {
      (r, c)
    }

    /** The elements in row-major order (see `FlattenAt`): one per cell. */
    function Elements(): (s: seq<int>)
      reads this
      requires Valid()
      ensures |s| == r * c
    {
      FlattenLength(e, r, c);
      Flatten(e)
    }

    /** `self[x][y]` read through `Index` on the matrix and then on the row: element
        `x * c + y` in row-major order, or `None` where either index is out of range and Rust
        panics. */
    function At(x: int, y: int): (v: Option<int>)
      reads this
      requires Valid()
      ensures v.Some? <==> 0 <= x < r && 0 <= y < c
      ensures v.Some? ==> x * c + y < |Elements()| && v.value == Elements()[x * c + y]
    {
      if 0 <= x < |e| && 0 <= y < |e[x]| then
        FlattenAt(e, r, c, x, y);
        Some(e[x][y])
      else None
    }

    /** `self[x][y] = v` through `IndexMut`: writes element `x * c + y` in row-major order and
        nothing else, or returns `false`, with nothing written, where Rust panics. */
    method Put(x: int, y: int, v: int) returns (ok: bool)
      requires Valid()
      modifies this`e
      ensures Valid()
      ensures ok <==> 0 <= x < r && 0 <= y < c
      ensures e == if ok then old(e)[x := old(e)[x][y := v]] else old(e)
      ensures ok ==> x * c + y < |old(Elements())| && Elements() == old(Elements())[x * c + y := v]
    {
      ok := 0 <= x < |e| && 0 <= y < |e[x]|;
      if ok {
        FlattenUpdate(e, r, c, x, y, v);
        e := e[x := e[x][y := v]];
      }
    }

    /** `fill`: for `k` in `0..r*c`, pulls item `k` and writes it to `self[k / r][k % c]`.
        Returns the panic that stopped it, if any; the shape and cursor never change. */
    method Fill(items: seq<int>) returns (fault: Option<Fault>)
      requires Valid()
      modifies this`e
      ensures Valid()
      ensures (e, fault) == FillFrom(old(e), r, c, items, 0)
    {
      ghost var outcome := FillFrom(e, r, c, items, 0);
      var k := 0;
      while k < r * c
        invariant k <= r * c && Valid()
        invariant FillFrom(e, r, c, items, k) == outcome
      {
        var row, col := k / r, k % c;
        FillStep(e, r, c, items, k);
        if k >= |items| {
          return Some(Exhausted);
        }
        if row >= |e| {
          return Some(RowOutOfRange);
        }
        CellWrite(e, r, c, row, col, items[k]);
        e := e[row := e[row][col := items[k]]];
        k := k + 1;
      }
      FillStep(e, r, c, items, k);
      return None;
    }

    /** `Iterator::next`: element `i` in row-major order, advancing the cursor, or `None`
        for good once all `r * c` elements have been yielded. */
    method Next() returns (v: Option<int>)
      requires Valid()
      modifies this`i
      ensures Valid()
      ensures old(i) == r * c ==> v == None && i == old(i)
      ensures old(i) < r * c ==> v == Some(Elements()[old(i)]) && i == old(i) + 1
    {
      if i == r * c {
        return None;
      }
      FlattenIndex(e, r, c, i);
      v := At(i / c, i % c);
      i := i + 1;
    }

    /** `collect()` over the iterator: the elements from the cursor on, in row-major order. */
    method Collect() returns (s: seq<int>)
      requires Valid()
      modifies this`i
      ensures Valid() && i == r * c
      ensures s == Elements()[old(i)..]
    {
      s := [];
      while true
        invariant Valid() && old(i) <= i
        invariant s == Elements()[old(i)..i]
        decreases r * c - i
      {
        var v := Next();
        if v.None? {
          return;
        }
        s := s + [v.value];
      }
    }
  }

  /** Storage `e` of the product while `mul` runs: the cells before `(row, col)` in row-major
      order hold their sum, the others still hold `0`. */
  ghost predicate MulProgress(e: seq<seq<int>>, a: seq<seq<int>>, b: seq<seq<int>>, m: nat, p: nat, n: nat, row: nat, col: nat)
    requires Shaped(a, m, p) && Shaped(e, m, n)
    requires forall k :: 0 <= k < |b| ==> |b[k]| == n
  {
    forall x, y :: 0 <= x < m && 0 <= y < n ==>
      if x < row || (x == row && y < col)
      then p <= |b| && e[x][y] == Dot(a, b, x, y, p)
      else e[x][y] == 0
  }

  /** Finishing cell `(row, col)` moves the progress on to the next cell. */
  lemma MulProgressStep(e: seq<seq<int>>, a: seq<seq<int>>, b: seq<seq<int>>, m: nat, p: nat, n: nat, row: nat, col: nat)
    requires Shaped(a, m, p) && Shaped(e, m, n) && p <= |b| && row < m && col < n
    requires forall k :: 0 <= k < |b| ==> |b[k]| == n
    requires MulProgress(e, a, b, m, p, n, row, col)
    ensures var e' := e[row := e[row][col := Dot(a, b, row, col, p)]];
            Shaped(e', m, n) &&
            if col + 1 < n then MulProgress(e', a, b, m, p, n, row, col + 1)
            else MulProgress(e', a, b, m, p, n, row + 1, 0)
  {
  }

  /** Once every cell is finished, the storage is the product. */
  lemma MulProgressDone(e: seq<seq<int>>, a: seq<seq<int>>, b: seq<seq<int>>, m: nat, p: nat, n: nat)
    requires Shaped(a, m, p) && Shaped(e, m, n) && (m == 0 || n == 0 || p <= |b|)
    requires forall k :: 0 <= k < |b| ==> |b[k]| == n
    requires MulProgress(e, a, b, m, p, n, m, 0)
    ensures e == Product(a, b, m, p, n)
  {
    forall x | 0 <= x < m
      ensures e[x] == Product(a, b, m, p, n)[x]
    {
      assert forall y :: 0 <= y < n ==> e[x][y] == Product(a, b, m, p, n)[x][y];
    }
  }

  /** The innermost loop of `mul` for cell `(i, j)` of `res`: `res[i][j] += a[i][k] * b[k][j]`
      for `k` in `0..a.c`, starting from `0`. It panics (`false`) at `b[b.r]` when `a.c > b.r`;
      otherwise the cell ends up holding its sum and nothing else changes. */
  method AccumulateCell(a: Matrix, b: Matrix, res: Matrix, i: nat, j: nat) returns (ok: bool)
    requires a.Valid() && b.Valid() && res.Valid() && res.r == a.r && res.c == b.c
    requires res != a && res != b && i < a.r && j < b.c && res.e[i][j] == 0
    modifies res`e
    ensures ok <==> a.c <= b.r
    ensures ok ==> res.Valid() && res.e == old(res.e)[i := old(res.e)[i][j := Dot(a.e, b.e, i, j, a.c)]]
  {
    ghost var before := res.e;
    assert before[i][j := Dot(a.e, b.e, i, j, 0)] == before[i];
    var k := 0;
    while k < a.c
      invariant k <= a.c && k <= b.r
      invariant res.Valid() && res.r == a.r && res.c == b.c
      invariant res.e == before[i := before[i][j := Dot(a.e, b.e, i, j, k)]]
    {
      var cij := res.At(i, j);
      var aik := a.At(i, k);
      var bkj := b.At(k, j);
      if bkj.None? {
        return false;
      }
      assert Dot(a.e, b.e, i, j, k + 1) == cij.value + aik.value * bkj.value;
      var _ := res.Put(i, j, cij.value + aik.value * bkj.value);
      assert res.e[i] == before[i][j := Dot(a.e, b.e, i, j, k + 1)];
      k := k + 1;
    }
    return true;
  }

  /** `a * b`: a new `a.r` by `b.c` matrix from `Matrix::new`, then for each cell in row-major
      order `c[i][j] += a[i][k] * b[k][j]` for `k` in `0..a.c`. There is no shape check: it
      panics (`null`) exactly when some cell is visited and `a.c > b.r`, at `b[b.r]`. */
  method Mul(a: Matrix, b: Matrix) returns (prod: Matrix?)
    requires a.Valid() && b.Valid()
    ensures prod == null <==> a.r > 0 && b.c > 0 && a.c > b.r
    ensures prod != null ==> fresh(prod) && prod.Valid() && prod.i == 0
    ensures prod != null ==> prod.Shape() == (a.r, b.c)
    ensures prod != null ==> prod.e == Product(a.e, b.e, a.r, a.c, b.c)
  {
    var res := new Matrix(a.r, b.c);
    var idx := 0;
    // (row, col) is the cell `idx` visits: idx == row * b.c + col
    ghost var row, col := 0, 0;
    while idx < a.r * b.c
      invariant idx <= a.r * b.c && idx == row * b.c + col && row <= a.r
      invariant b.c > 0 ==> col < b.c
      invariant fresh(res) && res.Valid() && res.r == a.r && res.c == b.c && res.i == 0
      invariant idx > 0 ==> a.c <= b.r
      invariant MulProgress(res.e, a.e, b.e, a.r, a.c, b.c, row, col)
    {
      var i, j := idx / b.c, idx % b.c;
      assert 0 < a.r && 0 < b.c && i == row < a.r && j == col by {
        PositiveFactors(a.r, b.c);
        RowBound(idx, a.r, b.c);
        DivModUnique(idx, b.c, row, col);
      }
      ghost var before := res.e;
      var ok := AccumulateCell(a, b, res, i, j);
      if !ok {
        return null;
      }
      MulProgressStep(before, a.e, b.e, a.r, a.c, b.c, row, col);
      idx := idx + 1;
      if col + 1 < b.c {
        col := col + 1;
      } else {
        MulSucc(row, b.c);
        row, col := row + 1, 0;
      }
    }
    if a.r > 0 && b.c > 0 {
      assert idx > 0 && row == a.r && col == 0 by {
        MulMonotone(1, a.r, b.c);
        DivModUnique(idx, b.c, row, col);
        DivModUnique(idx, b.c, a.r, 0);
      }
    } else {
      assert MulProgress(res.e, a.e, b.e, a.r, a.c, b.c, a.r, 0);
    }
    MulProgressDone(res.e, a.e, b.e, a.r, a.c, b.c);
    return res;
  }
}
