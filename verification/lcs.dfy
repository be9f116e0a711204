/** Model of lib/lcs.js: an insert/delete-only longest-common-subsequence
    differ. `Compare` trims the shared prefix and suffix of two sequences and
    fills an edit-distance matrix over the differing middle; `Reduce` folds a
    caller's function over the edit script read off that matrix. */
module Lcs {
  import opened EditDistance

  datatype Option<T> = None | Some(value: T)

  /** A reduction either finishes or reads a matrix cell that does not exist
      (in the source, a `TypeError` on `undefined.type`). */
  datatype Result<T> = Ok(value: T) | Undefined(row: int, col: int)

  // ---------------------------------------------------------------------
  // Operation types: one enumeration, each value under two public names.

  const REMOVE: OpType := Remove
  const RIGHT: OpType := Remove
  const ADD: OpType := Add
  const DOWN: OpType := Add
  const EQUAL: OpType := Skip

  /** The number each operation type is bound to. */
  function Code(t: OpType): (c: int)
    ensures -1 <= c <= 1
    ensures (c == 0) == (t == Skip) && (c < 0) == (t == Remove)
  {
    match t
    case Remove => -1
    case Skip => 0
    case Add => 1
  }

  /** The operation type a number stands for, if any. */
  function FromCode(c: int): (r: Option<OpType>)
    ensures r.Some? <==> -1 <= c <= 1
    ensures r.Some? ==> Code(r.value) == c
  {
    if c == -1 then Some(Remove) else if c == 0 then Some(Skip) else if c == 1 then Some(Add) else None
  }

  /** A matrix cell: the cost of finishing from here, and the move to make. */
  datatype Op = Op(value: nat, kind: OpType)

  /** The one record `reduce` passes for every shared prefix and suffix
      element; its value is 1, not 0. */
  const SharedSkip: Op := Op(1, Skip)

  /** What `compare` returns. */
  datatype Comparison = Comparison(prefix: nat, matrix: array2<Op>, suffix: nat)

  /** One call of the caller's function: the operation, the row index (into
      the second sequence) and the column index (into the first). */
  datatype Call = Call(op: Op, i: int, j: int)

  // ---------------------------------------------------------------------
  // Prefix and suffix scans

  /** n is the length of the longest common prefix of a and b. */
  predicate IsPrefixLen<T(==)>(a: seq<T>, b: seq<T>, n: nat)
  {
    n <= |a| && n <= |b|
    && (forall t :: 0 <= t < n ==> a[t] == b[t])
    && (n == |a| || n == |b| || a[n] != b[n])
  }

  /** The number of trailing positions the source's suffix scan examines:
      one less than the shorter length, and none when either is empty. */
  function SuffixScanLimit<T>(a: seq<T>, b: seq<T>): (l: nat)
    ensures |a| > 0 && |b| > 0 ==> l < |a| && l < |b|
    ensures |a| > 0 && |b| > 0 ==> l + 1 == |a| || l + 1 == |b|
    ensures |a| == 0 || |b| == 0 ==> l == 0
  {
    if |a| == 0 || |b| == 0 then 0 else if |a| <= |b| then |a| - 1 else |b| - 1
  }

  /** s is what the source's suffix scan returns: trailing elements agree up
      to s, and the scan stopped at its limit or at the first mismatch. It
      does not look at where the common prefix ends. */
  predicate IsSuffixScan<T(==)>(a: seq<T>, b: seq<T>, s: nat)
  {
    s <= SuffixScanLimit(a, b)
    && a[|a| - s..] == b[|b| - s..]
    && (s == SuffixScanLimit(a, b) || a[|a| - 1 - s] != b[|b| - 1 - s])
  }

  method FindPrefix<T(==)>(a: seq<T>, b: seq<T>) returns (n: nat)
    ensures IsPrefixLen(a, b, n)
  {
    n := 0;
    var l := if |a| <= |b| then |a| else |b|;
    while n < l && a[n] == b[n]
      invariant n <= l
      invariant forall t :: 0 <= t < n ==> a[t] == b[t]
    {
      n := n + 1;
    }
  }

  method FindSuffix<T(==)>(a: seq<T>, b: seq<T>) returns (s: nat)
    ensures IsSuffixScan(a, b, s)
  {
    var al := |a| - 1;
    var bl := |b| - 1;
    var l := if al <= bl then al else bl;
    s := ScanBack(a, b, l);
  }

  /** The loop of `findSuffix`: counts equal trailing elements, looking at
      no more than l positions. */
  method ScanBack<T(==)>(a: seq<T>, b: seq<T>, l: int) returns (s: nat)
    requires l < |a| && l < |b|
    ensures s == 0 || s <= l
    ensures a[|a| - s..] == b[|b| - s..]
    ensures s >= l || a[|a| - 1 - s] != b[|b| - 1 - s]
  {
    var al := |a| - 1;
    var bl := |b| - 1;
    var i := 0;
    while i < l
      invariant 0 <= i && (i <= l || i == 0)
      invariant a[|a| - i..] == b[|b| - i..]
    {
      if a[al - i] != b[bl - i] {
        break;
      }
      TailStep(a, b, i);
      i := i + 1;
    }
    s := i;
  }

  /** s is what the suffix scan returns when it is also bounded by what a
      prefix of length `prefix` leaves over: the source's limit still
      holds, prefix and suffix are shared and fit side by side, and the scan
      stopped at one of the two limits or at the first mismatch. */
  predicate IsSuffixWithin<T(==)>(a: seq<T>, b: seq<T>, prefix: nat, s: nat)
  {
    SharesEnds(a, b, prefix, s) && s <= SuffixScanLimit(a, b)
    && (s == SuffixScanLimit(a, b) || prefix + s == |a| || prefix + s == |b|
        || a[|a| - 1 - s] != b[|b| - 1 - s])
  }

  /** The suffix scan of the source with its limit lowered, where needed, to
      what the prefix leaves over, so that the two runs never overlap. */
  method FindSuffixWithin<T(==)>(a: seq<T>, b: seq<T>, prefix: nat) returns (s: nat)
    requires prefix <= |a| && prefix <= |b| && a[..prefix] == b[..prefix]
    ensures IsSuffixWithin(a, b, prefix, s)
  {
    var al := |a| - 1;
    var bl := |b| - 1;
    var l := if al <= bl then al else bl;
    var left := (if |a| <= |b| then |a| else |b|) - prefix;
    if left < l {
      l := left;
    }
    s := ScanBack(a, b, l);
  }

  /** Equal tails of length i grow by one when the elements before them agree. */
  lemma TailStep<T>(a: seq<T>, b: seq<T>, i: nat)
    requires i < |a| && i < |b| && a[|a| - i..] == b[|b| - i..]
    requires a[|a| - 1 - i] == b[|b| - 1 - i]
    ensures a[|a| - (i + 1)..] == b[|b| - (i + 1)..]
  {
    assert a[|a| - (i + 1)..] == [a[|a| - 1 - i]] + a[|a| - i..];
    assert b[|b| - (i + 1)..] == [b[|b| - 1 - i]] + b[|b| - i..];
  }

  // ---------------------------------------------------------------------
  // The matrix

  /** The cell the matrix must hold at row i and column j, for middles x
      (columns) and y (rows): the insert/delete distance from x[j..] to
      y[i..], and the move `backtrack` picks, a remove only when it is
      strictly cheaper than an add. */
  function SpecCell<T(==)>(x: seq<T>, y: seq<T>, i: nat, j: nat): Op
    requires i <= |y| && j <= |x|
  {
    Op(EditDist(x[j..], y[i..]),
       if i == |y| && j == |x| then Skip
       else if i == |y| then Remove
       else if j == |x| then Add
       else if x[j] == y[i] then Skip
       else if EditDist(x[j + 1..], y[i..]) < EditDist(x[j..], y[i + 1..]) then Remove
       else Add)
  }

  /** m is the complete matrix for middles x and y. */
  ghost predicate Matches<T>(m: array2<Op>, x: seq<T>, y: seq<T>)
    reads m
  {
    m.Length0 == |y| + 1 && m.Length1 == |x| + 1
    && forall i, j :: 0 <= i <= |y| && 0 <= j <= |x| ==> m[i, j] == SpecCell(x, y, i, j)
  }

  /** The cells filled so far: the last row, every column right of j0, and
      the rows of column j0 from i0 down. */
  ghost predicate FilledFrom<T>(m: array2<Op>, x: seq<T>, y: seq<T>, i0: int, j0: int)
    reads m
  {
    m.Length0 == |y| + 1 && m.Length1 == |x| + 1
    && forall i, j :: 0 <= i <= |y| && 0 <= j <= |x| && (i == |y| || j > j0 || (j == j0 && i >= i0))
         ==> m[i, j] == SpecCell(x, y, i, j)
  }

  /** The last row and last column of the matrix count what is left. */
  lemma BoundaryCells<T>(x: seq<T>, y: seq<T>)
    ensures forall j :: 0 <= j < |x| ==> SpecCell(x, y, |y|, j) == Op(|x| - j, Remove)
    ensures forall i :: 0 <= i < |y| ==> SpecCell(x, y, i, |x|) == Op(|y| - i, Add)
    ensures SpecCell(x, y, |y|, |x|) == Op(0, Skip)
  {
    assert y[|y|..] == [] && x[|x|..] == [];
  }

  /** An allocated matrix of rows+1 rows of cols+1 cells with its last row,
      last column and corner set. With a negative dimension (overlapping
      prefix and suffix) the source writes only to negative indices, which no
      later read sees; the model gives such a matrix no rows, or rows with no
      cells. */
  method CreateMatrix(cols: int, rows: int) returns (m: array2<Op>)
    ensures fresh(m)
    ensures m.Length0 == (if rows < 0 then 0 else rows + 1)
    ensures m.Length1 == (if cols < 0 then 0 else cols + 1)
    ensures rows >= 0 && cols >= 0 ==>
      (forall j :: 0 <= j < cols ==> m[rows, j] == Op(cols - j, Remove))
      && (forall i :: 0 <= i < rows ==> m[i, cols] == Op(rows - i, Add))
      && m[rows, cols] == Op(0, Skip)
  {
    m := new Op[if rows < 0 then 0 else rows + 1, if cols < 0 then 0 else cols + 1];
    if rows >= 0 && cols >= 0 {
      var j := 0;
      while j < cols
        invariant 0 <= j <= cols
        invariant forall j' :: 0 <= j' < j ==> m[rows, j'] == Op(cols - j', Remove)
      {
        m[rows, j] := Op(cols - j, Remove);
        j := j + 1;
      }
      var i := 0;
      while i < rows
        invariant 0 <= i <= rows
        invariant forall j' :: 0 <= j' < cols ==> m[rows, j'] == Op(cols - j', Remove)
        invariant forall i' :: 0 <= i' < i ==> m[i', cols] == Op(rows - i', Add)
      {
        m[i, cols] := Op(rows - i, Add);
        i := i + 1;
      }
      m[rows, cols] := Op(0, Skip);
    }
  }

  /** The cell at row i, column j, from the three cells below and to the
      right of it. When those hold the distances of their suffix pairs, so
      does the result, with the move `SpecCell` prescribes. */
  function Backtrack<T(==)>(m: array2<Op>, a: seq<T>, b: seq<T>, start: nat, j: nat, i: nat): (r: Op)
    reads m
    requires i + 1 < m.Length0 && j + 1 < m.Length1
    requires start + j < |a| && start + i < |b|
    ensures start + m.Length1 - 1 <= |a| && start + m.Length0 - 1 <= |b| ==>
      var x, y := a[start..start + m.Length1 - 1], b[start..start + m.Length0 - 1];
      (m[i + 1, j + 1].value == EditDist(x[j + 1..], y[i + 1..])
       && m[i, j + 1].value == EditDist(x[j + 1..], y[i..])
       && m[i + 1, j].value == EditDist(x[j..], y[i + 1..]))
      ==> r == SpecCell(x, y, i, j)
  {
    if start + m.Length1 - 1 <= |a| && start + m.Length0 - 1 <= |b| then
      EditDistAt(a[start..start + m.Length1 - 1], b[start..start + m.Length0 - 1], i, j);
      BacktrackValue(m, a, b, start, j, i)
    else
      BacktrackValue(m, a, b, start, j, i)
  }

  /** The body of the source's `backtrack`. */
  function BacktrackValue<T(==)>(m: array2<Op>, a: seq<T>, b: seq<T>, start: nat, j: nat, i: nat): Op
    reads m
    requires i + 1 < m.Length0 && j + 1 < m.Length1
    requires start + j < |a| && start + i < |b|
  {
    if a[j + start] == b[i + start] then Op(m[i + 1, j + 1].value, Skip)
    else if m[i, j + 1].value < m[i + 1, j].value then Op(m[i, j + 1].value + 1, Remove)
    else Op(m[i + 1, j].value + 1, Add)
  }

  /** What `compare` returns for a and b: the longest common prefix; no
      suffix when the prefix used up either sequence, otherwise what the
      suffix scan found; a matrix of rows+1 rows of cols+1 cells, where the
      middles have cols and rows elements; and, when prefix and suffix do not
      overlap, the complete edit-distance matrix of the middles. */
  ghost predicate Compared<T>(a: seq<T>, b: seq<T>, c: Comparison)
    reads c.matrix
  {
    IsPrefixLen(a, b, c.prefix)
    && (if c.prefix == |a| || c.prefix == |b| then c.suffix == 0 else IsSuffixScan(a, b, c.suffix))
    && (var rows := |b| - c.prefix - c.suffix; c.matrix.Length0 == if rows < 0 then 0 else rows + 1)
    && (var cols := |a| - c.prefix - c.suffix; c.matrix.Length1 == if cols < 0 then 0 else cols + 1)
    && (c.prefix + c.suffix <= |a| && c.prefix + c.suffix <= |b| ==>
          Matches(c.matrix, Middle(a, c.prefix, c.suffix), Middle(b, c.prefix, c.suffix)))
  }

  /** The comparison describes a and b: prefix and suffix are shared and do
      not overlap, and the matrix is the complete matrix of the middles. */
  ghost predicate Describes<T>(c: Comparison, a: seq<T>, b: seq<T>)
    reads c.matrix
  {
    SharesEnds(a, b, c.prefix, c.suffix)
    && Matches(c.matrix, Middle(a, c.prefix, c.suffix), Middle(b, c.prefix, c.suffix))
  }

  /** The source's `compare`. Its suffix scan ignores the prefix, so the two
      may overlap; then the matrix has a negative dimension and no cells. */
  method Compare<T(==)>(a: seq<T>, b: seq<T>) returns (c: Comparison)
    ensures fresh(c.matrix)
    ensures Compared(a, b, c)
  {
    var prefix := FindPrefix(a, b);
    var suffix: nat;
    if prefix == |a| || prefix == |b| {
      suffix := 0;
    } else {
      suffix := FindSuffix(a, b);
    }
    var m := TrimmedMatrix(a, b, prefix, suffix);
    c := Comparison(prefix, m, suffix);
  }

  /** What the corrected `compare` returns for a and b: the longest common
      prefix; no suffix when the prefix used up either sequence, otherwise
      what the bounded suffix scan found; and a comparison that describes a
      and b. */
  ghost predicate ComparedWithin<T>(a: seq<T>, b: seq<T>, c: Comparison)
    reads c.matrix
  {
    IsPrefixLen(a, b, c.prefix)
    && (if c.prefix == |a| || c.prefix == |b| then c.suffix == 0 else IsSuffixWithin(a, b, c.prefix, c.suffix))
    && Describes(c, a, b)
  }

  /** `compare` with the suffix scan bounded by what the prefix leaves, so
      that its result always describes a and b. */
  method CompareWithin<T(==)>(a: seq<T>, b: seq<T>) returns (c: Comparison)
    ensures fresh(c.matrix)
    ensures ComparedWithin(a, b, c)
  {
    var prefix := FindPrefix(a, b);
    var suffix: nat;
    if prefix == |a| || prefix == |b| {
      suffix := 0;
    } else {
      suffix := FindSuffixWithin(a, b, prefix);
    }
    var m := TrimmedMatrix(a, b, prefix, suffix);
    c := Comparison(prefix, m, suffix);
  }

  /** The matrix part of `compare`: allocate it for what is left once prefix
      and suffix are removed, then fill it. With a negative dimension the
      source's filling loops do not run. */
  method TrimmedMatrix<T(==)>(a: seq<T>, b: seq<T>, prefix: nat, suffix: nat) returns (m: array2<Op>)
    ensures fresh(m)
    ensures var rows := |b| - prefix - suffix; m.Length0 == if rows < 0 then 0 else rows + 1
    ensures var cols := |a| - prefix - suffix; m.Length1 == if cols < 0 then 0 else cols + 1
    ensures prefix + suffix <= |a| && prefix + suffix <= |b| ==>
      Matches(m, Middle(a, prefix, suffix), Middle(b, prefix, suffix))
  {
    var remove := suffix + prefix;
    var cols := |a| - remove;
    var rows := |b| - remove;
    m := CreateMatrix(cols, rows);
    if cols >= 0 && rows >= 0 {
      ghost var x, y := Middle(a, prefix, suffix), Middle(b, prefix, suffix);
      assert FilledFrom(m, x, y, rows, cols - 1) by {
        BoundaryCells(x, y);
      }
      FillMatrix(m, a, b, prefix, x, y);
    }
  }

  /** The filling loops of `compare`: columns right to left, and within a
      column rows bottom to top, each cell from its three finished
      neighbours. */
  method FillMatrix<T(==)>(m: array2<Op>, a: seq<T>, b: seq<T>, prefix: nat, ghost x: seq<T>, ghost y: seq<T>)
    requires prefix + |x| <= |a| && x == a[prefix..prefix + |x|]
    requires prefix + |y| <= |b| && y == b[prefix..prefix + |y|]
    requires FilledFrom(m, x, y, |y|, |x| - 1)
    modifies m
    ensures Matches(m, x, y)
  {
    var j := m.Length1 - 2;
    while j >= 0
      invariant -1 <= j < |x|
      invariant FilledFrom(m, x, y, |y|, j)
    {
      FillColumn(m, a, b, prefix, j, x, y);
      j := j - 1;
    }
  }

  /** The inner loop of `compare` for column j. */
  method FillColumn<T(==)>(m: array2<Op>, a: seq<T>, b: seq<T>, prefix: nat, j: nat, ghost x: seq<T>, ghost y: seq<T>)
    requires prefix + |x| <= |a| && x == a[prefix..prefix + |x|]
    requires prefix + |y| <= |b| && y == b[prefix..prefix + |y|]
    requires j < |x| && FilledFrom(m, x, y, |y|, j)
    modifies m
    ensures FilledFrom(m, x, y, |y|, j - 1)
  {
    var i := m.Length0 - 2;
    while i >= 0
      invariant -1 <= i < |y|
      invariant FilledFrom(m, x, y, i + 1, j)
    {
      var cell := Backtrack(m, a, b, prefix, j, i);
      assert cell == SpecCell(x, y, i, j) by {
        assert m[i + 1, j + 1] == SpecCell(x, y, i + 1, j + 1);
        assert m[i, j + 1] == SpecCell(x, y, i, j + 1);
        assert m[i + 1, j] == SpecCell(x, y, i + 1, j);
      }
      m[i, j] := cell;
      i := i - 1;
    }
  }

  // ---------------------------------------------------------------------
  // Reduction

  /** The calls the matrix walk makes, and the cursor it stops at. */
  datatype Walk = Walk(calls: seq<Call>, i: int, j: int)

  function Prepend(pre: seq<Call>, r: Result<Walk>): Result<Walk>
  {
    match r
    case Undefined(i, j) => Undefined(i, j)
    case Ok(w) => Ok(Walk(pre + w.calls, w.i, w.j))
  }

  lemma PrependNil(r: Result<Walk>)
    ensures Prepend([], r) == r
  {
    match r
    case Undefined(_, _) =>
    case Ok(w) => assert [] + w.calls == w.calls;
  }

  lemma PrependSnoc(walked: seq<Call>, call: Call, r: Result<Walk>)
    ensures Prepend(walked, Prepend([call], r)) == Prepend(walked + [call], r)
  {
    match r
    case Undefined(_, _) =>
    case Ok(w) => assert walked + ([call] + w.calls) == (walked + [call]) + w.calls;
  }

  /** The walk of `reduce` through m from cursor (i, j), reporting indices
      shifted by k: each cell is reported, then its move is followed, until
      the row index leaves the matrix. */
  function WalkFrom(m: array2<Op>, k: nat, i: nat, j: nat): Result<Walk>
    reads m
    requires i <= m.Length0 && j <= m.Length1
    decreases m.Length0 - i + m.Length1 - j
  {
    if i == m.Length0 then Ok(Walk([], i, j))
    else if j == m.Length1 then Undefined(i, j)
    else
      var op := m[i, j];
      var call := Call(op, i + k, j + k);
      match op.kind
      case Skip => Prepend([call], WalkFrom(m, k, i + 1, j + 1))
      case Remove => Prepend([call], WalkFrom(m, k, i, j + 1))
      case Add => Prepend([call], WalkFrom(m, k, i + 1, j))
  }

  /** n shared-skip calls at (i0 + t, j0 + t). */
  function SkipCalls(n: nat, i0: int, j0: int): (cs: seq<Call>)
    ensures |cs| == n && forall t :: 0 <= t < n ==> cs[t] == Call(SharedSkip, i0 + t, j0 + t)
  {
    seq(n, t => Call(SharedSkip, i0 + t, j0 + t))
  }

  lemma SkipCallsSnoc(n: nat, i0: int, j0: int)
    ensures SkipCalls(n + 1, i0, j0) == SkipCalls(n, i0, j0) + [Call(SharedSkip, i0 + n, j0 + n)]
  {
  }

  /** Every call `reduce` makes, in order: the prefix, the walk, and the
      suffix replayed from where the walk's cursor stopped. */
  function Trace(c: Comparison): Result<seq<Call>>
    reads c.matrix
  {
    match WalkFrom(c.matrix, c.prefix, 0, 0)
    case Undefined(i, j) => Undefined(i, j)
    case Ok(w) => Ok(SkipCalls(c.prefix, 0, 0) + w.calls + SkipCalls(c.suffix, w.i + c.prefix, w.j + c.prefix))
  }

  /** Left fold of f over calls. */
  function Fold<A>(f: (A, Op, int, int) -> A, acc: A, calls: seq<Call>): A
    decreases |calls|
  {
    if |calls| == 0 then acc else Fold(f, f(acc, calls[0].op, calls[0].i, calls[0].j), calls[1..])
  }

  lemma {:induction false} FoldSnoc<A>(f: (A, Op, int, int) -> A, acc: A, calls: seq<Call>, c: Call)
    ensures Fold(f, acc, calls + [c]) == f(Fold(f, acc, calls), c.op, c.i, c.j)
    decreases |calls|
  {
    if |calls| == 0 {
      assert calls + [c] == [c];
    } else {
      assert (calls + [c])[1..] == calls[1..] + [c];
      FoldSnoc(f, f(acc, calls[0].op, calls[0].i, calls[0].j), calls[1..], c);
    }
  }

  /** Folding over two runs of calls is folding over the second from where
      the first left the accumulator. */
  lemma {:induction false} FoldAppend<A>(f: (A, Op, int, int) -> A, acc: A, c1: seq<Call>, c2: seq<Call>)
    ensures Fold(f, acc, c1 + c2) == Fold(f, Fold(f, acc, c1), c2)
    decreases |c1|
  {
    if |c1| == 0 {
      assert c1 + c2 == c2;
    } else {
      assert (c1 + c2)[1..] == c1[1..] + c2;
      FoldAppend(f, f(acc, c1[0].op, c1[0].i, c1[0].j), c1[1..], c2);
    }
  }

  /** The source's `reduce`: folds f over the calls of `Trace`, or fails
      where the walk reads a missing cell. */
  method Reduce<A>(f: (A, Op, int, int) -> A, r0: A, c: Comparison) returns (res: Result<A>)
    ensures res == match Trace(c)
                   case Undefined(i, j) => Undefined(i, j)
                   case Ok(calls) => Ok(Fold(f, r0, calls))
  {
    var k := c.prefix;
    var r := ReduceSkips(f, r0, k, 0, 0);
    var walk := ReduceWalk(f, r, c.matrix, k);
    match walk
    case Undefined(i, j) =>
      res := Undefined(i, j);
    case Ok(end) =>
      var (r', i, j) := end;
      r := ReduceSkips(f, r', c.suffix, i + k, j + k);
      ghost var pre := SkipCalls(k, 0, 0);
      ghost var w := WalkFrom(c.matrix, k, 0, 0).value;
      FoldAppend(f, r0, pre, w.calls);
      FoldAppend(f, r0, pre + w.calls, SkipCalls(c.suffix, i + k, j + k));
      res := Ok(r);
  }

  /** The walk loop of `reduce`: from cell (0, 0), report each cell with
      indices shifted by k and follow its move, until the row index leaves
      the matrix or the column index reaches a missing cell. Ends with the
      accumulator and the cursor. */
  method ReduceWalk<A>(f: (A, Op, int, int) -> A, r: A, m: array2<Op>, k: nat)
    returns (res: Result<(A, int, int)>)
    ensures WalkFrom(m, k, 0, 0).Undefined? ==>
              res == Undefined(WalkFrom(m, k, 0, 0).row, WalkFrom(m, k, 0, 0).col)
    ensures WalkFrom(m, k, 0, 0).Ok? ==>
              var w := WalkFrom(m, k, 0, 0).value;
              res == Ok((Fold(f, r, w.calls), w.i, w.j))
  {
    var acc := r;
    var l := m.Length0;
    var i := 0;
    var j := 0;
    ghost var walked: seq<Call> := [];
    PrependNil(WalkFrom(m, k, i, j));
    while i < l
      invariant 0 <= i <= l && 0 <= j <= m.Length1
      invariant WalkFrom(m, k, 0, 0) == Prepend(walked, WalkFrom(m, k, i, j))
      invariant acc == Fold(f, r, walked)
      decreases l - i + m.Length1 - j
    {
      if j == m.Length1 {
        // the cell is undefined and reading its type fails
        assert WalkFrom(m, k, 0, 0) == Undefined(i, j);
        return Undefined(i, j);
      }
      var op := m[i, j];
      ghost var call := Call(op, i + k, j + k);
      FoldSnoc(f, r, walked, call);
      acc := f(acc, op, i + k, j + k);
      ghost var rest := match op.kind
                        case Skip => WalkFrom(m, k, i + 1, j + 1)
                        case Remove => WalkFrom(m, k, i, j + 1)
                        case Add => WalkFrom(m, k, i + 1, j);
      assert WalkFrom(m, k, i, j) == Prepend([call], rest);
      PrependSnoc(walked, call, rest);
      walked := walked + [call];
      match op.kind {
        case Skip => i := i + 1; j := j + 1;
        case Remove => j := j + 1;
        case Add => i := i + 1;
      }
    }
    assert WalkFrom(m, k, 0, 0) == Ok(Walk(walked, i, j)) by {
      assert walked + [] == walked;
    }
    res := Ok((acc, i, j));
  }

  /** The prefix and the suffix loop of `reduce`: n calls with the shared
      skip, from (i0, j0) on, starting from the accumulator r. */
  method ReduceSkips<A>(f: (A, Op, int, int) -> A, r: A, n: nat, i0: int, j0: int) returns (res: A)
    ensures res == Fold(f, r, SkipCalls(n, i0, j0))
  {
    res := r;
    var k := 0;
    while k < n
      invariant 0 <= k <= n
      invariant res == Fold(f, r, SkipCalls(k, i0, j0))
    {
      SkipCallsSnoc(k, i0, j0);
      FoldSnoc(f, r, SkipCalls(k, i0, j0), Call(SharedSkip, i0 + k, j0 + k));
      res := f(res, SharedSkip, i0 + k, j0 + k);
      k := k + 1;
    }
  }
}
