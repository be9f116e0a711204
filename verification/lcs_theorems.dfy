/** What the walk of `reduce` does over a matrix built by `compare`: it
    reaches the corner, reports as many edits as the edit distance, spells
    out an edit script no other script beats, and replays the second
    sequence from the first. Also the two places where the source's output
    departs from that, with concrete inputs. */
module LcsTheorems {
  import opened EditDistance
  import opened Lcs

  /** The operation types of a run of calls. */
  function Kinds(calls: seq<Call>): (s: seq<OpType>)
    ensures |s| == |calls| && forall n :: 0 <= n < |calls| ==> s[n] == calls[n].op.kind
  {
    seq(|calls|, n requires 0 <= n < |calls| => calls[n].op.kind)
  }

  /** All calls but the last. */
  function Init(calls: seq<Call>): seq<Call>
  {
    if |calls| == 0 then [] else calls[..|calls| - 1]
  }

  /** Applies the calls to a, reading the first sequence at column indices
      and the second at row indices: a `Skip` copies a[j], a `Remove` drops
      a[j], an `Add` emits b[i]. None when a call points outside its
      sequence. */
  function Replay<T>(a: seq<T>, b: seq<T>, calls: seq<Call>): Option<seq<T>>
    decreases |calls|
  {
    if |calls| == 0 then Some([])
    else match Step(a, b, calls[0])
      case None => None
      case Some(o) =>
        match Replay(a, b, calls[1..])
        case None => None
        case Some(r) => Some(o + r)
  }

  /** What one call contributes to a replay. */
  function Step<T>(a: seq<T>, b: seq<T>, c: Call): Option<seq<T>>
  {
    match c.op.kind
    case Skip => if 0 <= c.j < |a| then Some([a[c.j]]) else None
    case Remove => if 0 <= c.j < |a| then Some([]) else None
    case Add => if 0 <= c.i < |b| then Some([b[c.i]]) else None
  }

  lemma ReplayCons<T>(a: seq<T>, b: seq<T>, c: Call, rest: seq<Call>)
    ensures Replay(a, b, [c] + rest) ==
      if Step(a, b, c).Some? && Replay(a, b, rest).Some?
      then Some(Step(a, b, c).value + Replay(a, b, rest).value) else None
  {
    assert ([c] + rest)[0] == c && ([c] + rest)[1..] == rest;
  }

  // ---------------------------------------------------------------------
  // Single cells

  /** Each non-corner cell's move stays inside the matrix and its value is
      the value of the cell it moves to, plus one for an edit. */
  lemma CellStep<T>(m: array2<Op>, x: seq<T>, y: seq<T>, i: nat, j: nat)
    requires Matches(m, x, y) && i <= |y| && j <= |x| && !(i == |y| && j == |x|)
    ensures m[i, j].kind == Skip ==>
      i < |y| && j < |x| && x[j] == y[i] && m[i, j].value == m[i + 1, j + 1].value
    ensures m[i, j].kind == Remove ==> j < |x| && m[i, j].value == m[i, j + 1].value + 1
    ensures m[i, j].kind == Add ==> i < |y| && m[i, j].value == m[i + 1, j].value + 1
  {
    assert m[i, j] == SpecCell(x, y, i, j);
    if i == |y| {
      assert m[i, j + 1] == SpecCell(x, y, i, j + 1);
      assert y[i..] == [];
    } else if j == |x| {
      assert m[i + 1, j] == SpecCell(x, y, i + 1, j);
      assert x[j..] == [];
    } else {
      assert m[i + 1, j + 1] == SpecCell(x, y, i + 1, j + 1);
      assert m[i, j + 1] == SpecCell(x, y, i, j + 1);
      assert m[i + 1, j] == SpecCell(x, y, i + 1, j);
      EditDistAt(x, y, i, j);
    }
  }

  // ---------------------------------------------------------------------
  // The walk

  /** From any cell the walk stays inside the matrix, ends with the corner
      reported as a zero-cost `Skip`, and leaves the cursor one past the
      corner in both directions. */
  lemma {:induction false} WalkReachesCorner<T>(m: array2<Op>, x: seq<T>, y: seq<T>, k: nat, i: nat, j: nat)
    requires Matches(m, x, y) && i <= |y| && j <= |x|
    ensures WalkFrom(m, k, i, j).Ok?
    ensures var w := WalkFrom(m, k, i, j).value;
      w.i == |y| + 1 && w.j == |x| + 1 && |w.calls| > 0
      && w.calls[|w.calls| - 1] == Call(Op(0, Skip), |y| + k, |x| + k)
    decreases |y| - i + |x| - j
  {
    if i == |y| && j == |x| {
      BoundaryCells(x, y);
      assert m[i, j] == SpecCell(x, y, i, j);
    } else {
      CellStep(m, x, y, i, j);
      match m[i, j].kind
      case Skip => WalkReachesCorner(m, x, y, k, i + 1, j + 1);
      case Remove => WalkReachesCorner(m, x, y, k, i, j + 1);
      case Add => WalkReachesCorner(m, x, y, k, i + 1, j);
    }
  }

  /** The walk from a cell makes as many edits as that cell's value, which
      is the edit distance between the remaining middles. */
  lemma {:induction false} WalkCountsEdits<T>(m: array2<Op>, x: seq<T>, y: seq<T>, k: nat, i: nat, j: nat)
    requires Matches(m, x, y) && i <= |y| && j <= |x|
    ensures WalkFrom(m, k, i, j).Ok?
    ensures Cost(Kinds(WalkFrom(m, k, i, j).value.calls)) == m[i, j].value == EditDist(x[j..], y[i..])
    decreases |y| - i + |x| - j
  {
    WalkReachesCorner(m, x, y, k, i, j);
    assert m[i, j] == SpecCell(x, y, i, j);
    var calls := WalkFrom(m, k, i, j).value.calls;
    if i == |y| && j == |x| {
      BoundaryCells(x, y);
      assert Kinds(calls) == [Skip];
    } else {
      CellStep(m, x, y, i, j);
      var (i', j') := match m[i, j].kind
                      case Skip => (i + 1, j + 1)
                      case Remove => (i, j + 1)
                      case Add => (i + 1, j);
      WalkCountsEdits(m, x, y, k, i', j');
      var rest := WalkFrom(m, k, i', j').value.calls;
      assert calls == [Call(m[i, j], i + k, j + k)] + rest;
      CostCons(Call(m[i, j], i + k, j + k), rest);
    }
  }

  lemma CostCons(call: Call, rest: seq<Call>)
    ensures Cost(Kinds([call] + rest)) == (if call.op.kind == Skip then 0 else 1) + Cost(Kinds(rest))
  {
    assert Kinds([call] + rest)[1..] == Kinds(rest);
  }

  /** The operation types the walk reports before the corner form an edit
      script from the remaining first middle to the remaining second one. */
  lemma {:induction false} WalkIsScript<T>(m: array2<Op>, x: seq<T>, y: seq<T>, k: nat, i: nat, j: nat)
    requires Matches(m, x, y) && i <= |y| && j <= |x|
    ensures WalkFrom(m, k, i, j).Ok?
    ensures Transforms(Kinds(Init(WalkFrom(m, k, i, j).value.calls)), x[j..], y[i..])
    decreases |y| - i + |x| - j
  {
    WalkReachesCorner(m, x, y, k, i, j);
    var calls := WalkFrom(m, k, i, j).value.calls;
    if i == |y| && j == |x| {
      BoundaryCells(x, y);
      assert m[i, j] == SpecCell(x, y, i, j);
      assert Init(calls) == [];
      assert x[j..] == [] && y[i..] == [];
    } else {
      CellStep(m, x, y, i, j);
      var (i', j') := match m[i, j].kind
                      case Skip => (i + 1, j + 1)
                      case Remove => (i, j + 1)
                      case Add => (i + 1, j);
      WalkIsScript(m, x, y, k, i', j');
      WalkReachesCorner(m, x, y, k, i', j');
      var rest := WalkFrom(m, k, i', j').value.calls;
      var call := Call(m[i, j], i + k, j + k);
      assert calls == [call] + rest;
      KindsInitCons(call, rest);
      ScriptStep(x, y, i, j, m[i, j].kind, Kinds(Init(rest)));
    }
  }

  lemma KindsInitCons(call: Call, rest: seq<Call>)
    requires |rest| > 0
    ensures Kinds(Init([call] + rest)) == [call.op.kind] + Kinds(Init(rest))
  {
    assert Init([call] + rest) == [call] + Init(rest);
  }

  /** One step of `WalkIsScript`: a move followed by a script for where the
      move leads is a script from the cell. */
  lemma ScriptStep<T>(x: seq<T>, y: seq<T>, i: nat, j: nat, kind: OpType, t: seq<OpType>)
    requires i <= |y| && j <= |x|
    requires kind == Skip ==> i < |y| && j < |x| && x[j] == y[i] && Transforms(t, x[j + 1..], y[i + 1..])
    requires kind == Remove ==> j < |x| && Transforms(t, x[j + 1..], y[i..])
    requires kind == Add ==> i < |y| && Transforms(t, x[j..], y[i + 1..])
    ensures Transforms([kind] + t, x[j..], y[i..])
  {
    assert ([kind] + t)[0] == kind && ([kind] + t)[1..] == t;
    if j < |x| {
      assert x[j..][0] == x[j] && x[j..][1..] == x[j + 1..];
    }
    if i < |y| {
      assert y[i..][0] == y[i] && y[i..][1..] == y[i + 1..];
    }
  }

  /** Every `Skip` among the calls points, after shifting by k, at equal
      elements of x and y. */
  predicate SkipsOnEqual<T(==)>(calls: seq<Call>, x: seq<T>, y: seq<T>, k: int)
  {
    forall n :: 0 <= n < |calls| && calls[n].op.kind == Skip ==>
      0 <= calls[n].j - k < |x| && 0 <= calls[n].i - k < |y| && x[calls[n].j - k] == y[calls[n].i - k]
  }

  /** Every `Skip` the walk reports before the corner points at equal
      elements of the two middles. */
  lemma {:induction false} WalkSkipsMatch<T>(m: array2<Op>, x: seq<T>, y: seq<T>, k: nat, i: nat, j: nat)
    requires Matches(m, x, y) && i <= |y| && j <= |x|
    ensures WalkFrom(m, k, i, j).Ok?
    ensures SkipsOnEqual(Init(WalkFrom(m, k, i, j).value.calls), x, y, k)
    decreases |y| - i + |x| - j
  {
    WalkReachesCorner(m, x, y, k, i, j);
    var calls := WalkFrom(m, k, i, j).value.calls;
    if i == |y| && j == |x| {
      assert Init(calls) == [];
    } else {
      CellStep(m, x, y, i, j);
      var (i', j') := match m[i, j].kind
                      case Skip => (i + 1, j + 1)
                      case Remove => (i, j + 1)
                      case Add => (i + 1, j);
      WalkSkipsMatch(m, x, y, k, i', j');
      WalkReachesCorner(m, x, y, k, i', j');
      var rest := WalkFrom(m, k, i', j').value.calls;
      var call := Call(m[i, j], i + k, j + k);
      assert calls == [call] + rest;
      assert Init(calls) == [call] + Init(rest);
      SkipsOnEqualCons(call, Init(rest), x, y, k);
    }
  }

  lemma SkipsOnEqualCons<T>(call: Call, rest: seq<Call>, x: seq<T>, y: seq<T>, k: int)
    requires SkipsOnEqual(rest, x, y, k)
    requires call.op.kind == Skip ==>
      0 <= call.j - k < |x| && 0 <= call.i - k < |y| && x[call.j - k] == y[call.i - k]
    ensures SkipsOnEqual([call] + rest, x, y, k)
  {
    var cs := [call] + rest;
    forall n | 0 < n < |cs|
      ensures cs[n] == rest[n - 1]
    {
    }
  }

  /** Replaying the walk's calls before the corner, against sequences that
      hold the middles at offset k, produces what is left of the second
      middle. */
  lemma {:induction false} WalkReplays<T>(m: array2<Op>, x: seq<T>, y: seq<T>, a: seq<T>, b: seq<T>,
                                          k: nat, i: nat, j: nat)
    requires Matches(m, x, y) && i <= |y| && j <= |x|
    requires k + |x| <= |a| && a[k..k + |x|] == x
    requires k + |y| <= |b| && b[k..k + |y|] == y
    ensures WalkFrom(m, k, i, j).Ok?
    ensures Replay(a, b, Init(WalkFrom(m, k, i, j).value.calls)) == Some(y[i..])
    decreases |y| - i + |x| - j
  {
    WalkReachesCorner(m, x, y, k, i, j);
    var calls := WalkFrom(m, k, i, j).value.calls;
    if i == |y| && j == |x| {
      BoundaryCells(x, y);
      assert m[i, j] == SpecCell(x, y, i, j);
      assert Init(calls) == [];
    } else {
      CellStep(m, x, y, i, j);
      var (i', j') := match m[i, j].kind
                      case Skip => (i + 1, j + 1)
                      case Remove => (i, j + 1)
                      case Add => (i + 1, j);
      WalkReplays(m, x, y, a, b, k, i', j');
      WalkReachesCorner(m, x, y, k, i', j');
      var rest := WalkFrom(m, k, i', j').value.calls;
      assert calls == [Call(m[i, j], i + k, j + k)] + rest;
      assert Init(calls) == [Call(m[i, j], i + k, j + k)] + Init(rest);
      ReplayStep(x, y, a, b, k, i, j, m[i, j].kind, m[i, j], Init(rest));
    }
  }

  /** One step of `WalkReplays`: a call at (i + k, j + k) followed by calls
      that replay y[i'..], where (i', j') is where its move leads. */
  lemma ReplayStep<T>(x: seq<T>, y: seq<T>, a: seq<T>, b: seq<T>, k: nat, i: nat, j: nat,
                      kind: OpType, op: Op, rest: seq<Call>)
    requires i <= |y| && j <= |x| && op.kind == kind
    requires k + |x| <= |a| && a[k..k + |x|] == x
    requires k + |y| <= |b| && b[k..k + |y|] == y
    requires kind == Skip ==> i < |y| && j < |x| && x[j] == y[i] && Replay(a, b, rest) == Some(y[i + 1..])
    requires kind == Remove ==> j < |x| && Replay(a, b, rest) == Some(y[i..])
    requires kind == Add ==> i < |y| && Replay(a, b, rest) == Some(y[i + 1..])
    ensures Replay(a, b, [Call(op, i + k, j + k)] + rest) == Some(y[i..])
  {
    var c := Call(op, i + k, j + k);
    ReplayCons(a, b, c, rest);
    match kind
    case Skip =>
      assert a[k + j] == x[j] == y[i];
      assert Step(a, b, c) == Some([y[i]]);
      assert y[i..] == [y[i]] + y[i + 1..];
    case Remove =>
      assert Step(a, b, c) == Some([]);
      assert [] + y[i..] == y[i..];
    case Add =>
      assert b[k + i] == y[i];
      assert Step(a, b, c) == Some([y[i]]);
      assert y[i..] == [y[i]] + y[i + 1..];
  }

  // ---------------------------------------------------------------------
  // The whole trace

  /** A comparison of a and b: its prefix and suffix calls, and the walk's
      calls, the last of which is the corner; the suffix calls start one past
      the corner. */
  lemma TraceShape<T>(c: Comparison, a: seq<T>, b: seq<T>)
    requires Describes(c, a, b)
    ensures WalkFrom(c.matrix, c.prefix, 0, 0).Ok?
    ensures var w := WalkFrom(c.matrix, c.prefix, 0, 0).value;
      var rows, cols := |b| - c.prefix - c.suffix, |a| - c.prefix - c.suffix;
      w.i == rows + 1 && w.j == cols + 1
      && |w.calls| > 0 && w.calls[|w.calls| - 1] == Call(Op(0, Skip), c.prefix + rows, c.prefix + cols)
      && Trace(c) == Ok(SkipCalls(c.prefix, 0, 0) + w.calls
                        + SkipCalls(c.suffix, c.prefix + rows + 1, c.prefix + cols + 1))
  {
    WalkReachesCorner(c.matrix, Middle(a, c.prefix, c.suffix), Middle(b, c.prefix, c.suffix), c.prefix, 0, 0);
  }

  lemma {:induction false} SkipCallsCostNothing(n: nat, i0: int, j0: int)
    ensures Kinds(SkipCalls(n, i0, j0)) == Skips(n) && Cost(Skips(n)) == 0
    decreases n
  {
    if n > 0 {
      assert Skips(n)[1..] == Skips(n - 1);
      SkipCallsCostNothing(n - 1, i0, j0);
    }
  }

  lemma KindsAppend(c1: seq<Call>, c2: seq<Call>)
    ensures Kinds(c1 + c2) == Kinds(c1) + Kinds(c2)
  {
  }

  /** Shared-skip calls around a run of calls add no edits. */
  lemma SkipsAroundCost(p: nat, mid: seq<Call>, n: nat, i0: int, j0: int)
    ensures Cost(Kinds(SkipCalls(p, 0, 0) + mid + SkipCalls(n, i0, j0))) == Cost(Kinds(mid))
  {
    var pre, suf := SkipCalls(p, 0, 0), SkipCalls(n, i0, j0);
    SkipCallsCostNothing(p, 0, 0);
    SkipCallsCostNothing(n, i0, j0);
    KindsAppend(pre + mid, suf);
    KindsAppend(pre, mid);
    CostAppend(Kinds(pre) + Kinds(mid), Kinds(suf));
    CostAppend(Kinds(pre), Kinds(mid));
  }

  /** `reduce` reports exactly as many removes and adds as the insert/delete
      edit distance between the two whole sequences. */
  lemma TraceEditCount<T>(c: Comparison, a: seq<T>, b: seq<T>)
    requires Describes(c, a, b)
    ensures Trace(c).Ok? && Cost(Kinds(Trace(c).value)) == EditDist(a, b)
  {
    var p, s := c.prefix, c.suffix;
    TraceShape(c, a, b);
    var w := WalkFrom(c.matrix, p, 0, 0).value;
    WalkCostIsDist(c, a, b);
    SkipsAroundCost(p, w.calls, s, |b| - s + 1, |a| - s + 1);
  }

  /** The walk over the whole matrix makes as many edits as separate a
      from b. */
  lemma WalkCostIsDist<T>(c: Comparison, a: seq<T>, b: seq<T>)
    requires Describes(c, a, b)
    ensures WalkFrom(c.matrix, c.prefix, 0, 0).Ok?
    ensures Cost(Kinds(WalkFrom(c.matrix, c.prefix, 0, 0).value.calls)) == EditDist(a, b)
  {
    var x, y := Middle(a, c.prefix, c.suffix), Middle(b, c.prefix, c.suffix);
    WalkCountsEdits(c.matrix, x, y, c.prefix, 0, 0);
    assert x[0..] == x && y[0..] == y;
    TrimKeepsDist(a, b, c.prefix, c.suffix);
  }

  /** No edit script from a to b makes fewer edits than `reduce` reports. */
  lemma TraceIsOptimal<T>(c: Comparison, a: seq<T>, b: seq<T>, s: seq<OpType>)
    requires Describes(c, a, b) && Transforms(s, a, b)
    ensures Trace(c).Ok? && Cost(Kinds(Trace(c).value)) <= Cost(s)
  {
    TraceEditCount(c, a, b);
    EditDistMinimal(s, a, b);
  }

  /** Swapping the two sequences does not change how many edits `reduce`
      reports. */
  lemma EditCountSymmetric<T>(c1: Comparison, c2: Comparison, a: seq<T>, b: seq<T>)
    requires Describes(c1, a, b) && Describes(c2, b, a)
    ensures Trace(c1).Ok? && Trace(c2).Ok?
    ensures Cost(Kinds(Trace(c1).value)) == Cost(Kinds(Trace(c2).value))
  {
    TraceEditCount(c1, a, b);
    TraceEditCount(c2, b, a);
    EditDistSym(a, b);
  }

  // ---------------------------------------------------------------------
  // The trace with the corner dropped and the suffix where it belongs

  /** What `reduce` reports if its walk stops at the corner instead of
      reporting it, so that the suffix calls start at the corner. */
  function IntendedTrace(c: Comparison): Result<seq<Call>>
    reads c.matrix
  {
    match WalkFrom(c.matrix, c.prefix, 0, 0)
    case Undefined(i, j) => Undefined(i, j)
    case Ok(w) => Ok(SkipCalls(c.prefix, 0, 0) + Init(w.calls) + SkipCalls(c.suffix, w.i - 1 + c.prefix, w.j - 1 + c.prefix))
  }

  lemma {:induction false} ReplayAppend<T>(a: seq<T>, b: seq<T>, c1: seq<Call>, c2: seq<Call>)
    requires Replay(a, b, c1).Some? && Replay(a, b, c2).Some?
    ensures Replay(a, b, c1 + c2) == Some(Replay(a, b, c1).value + Replay(a, b, c2).value)
    decreases |c1|
  {
    if |c1| == 0 {
      assert c1 + c2 == c2;
      assert [] + Replay(a, b, c2).value == Replay(a, b, c2).value;
    } else {
      ReplayCons(a, b, c1[0], c1[1..]);
      assert c1 == [c1[0]] + c1[1..];
      ReplayAppend(a, b, c1[1..], c2);
      assert c1 + c2 == [c1[0]] + (c1[1..] + c2);
      ReplayCons(a, b, c1[0], c1[1..] + c2);
      var o := Step(a, b, c1[0]).value;
      assert o + (Replay(a, b, c1[1..]).value + Replay(a, b, c2).value)
          == (o + Replay(a, b, c1[1..]).value) + Replay(a, b, c2).value;
    }
  }

  /** n skips from column j0 copy a[j0..j0+n]. */
  lemma {:induction false} ReplaySkips<T>(a: seq<T>, b: seq<T>, n: nat, i0: int, j0: nat)
    requires j0 + n <= |a|
    ensures Replay(a, b, SkipCalls(n, i0, j0)) == Some(a[j0..j0 + n])
    decreases n
  {
    if n > 0 {
      assert SkipCalls(n, i0, j0) == [Call(SharedSkip, i0, j0)] + SkipCalls(n - 1, i0 + 1, j0 + 1);
      ReplayCons(a, b, Call(SharedSkip, i0, j0), SkipCalls(n - 1, i0 + 1, j0 + 1));
      ReplaySkips(a, b, n - 1, i0 + 1, j0 + 1);
      assert Step(a, b, Call(SharedSkip, i0, j0)) == Some([a[j0]]);
      assert a[j0..j0 + n] == [a[j0]] + a[j0 + 1..j0 + 1 + (n - 1)];
    } else {
      assert a[j0..j0 + n] == [];
    }
  }

  /** Replaying the corrected trace turns a into b. */
  lemma IntendedTraceReplays<T>(c: Comparison, a: seq<T>, b: seq<T>)
    requires Describes(c, a, b)
    ensures IntendedTrace(c).Ok? && Replay(a, b, IntendedTrace(c).value) == Some(b)
  {
    var p, s := c.prefix, c.suffix;
    var x, y := Middle(a, p, s), Middle(b, p, s);
    TraceShape(c, a, b);
    var w := WalkFrom(c.matrix, p, 0, 0).value;
    assert IntendedTrace(c) == Ok(SkipCalls(p, 0, 0) + Init(w.calls) + SkipCalls(s, p + |y|, p + |x|));
    assert Replay(a, b, Init(w.calls)) == Some(y) by {
      WalkReplays(c.matrix, x, y, a, b, p, 0, 0);
      assert y[0..] == y;
    }
    ReplayAround(a, b, p, s, Init(w.calls));
  }

  /** Calls that replay the middle of b, with the shared prefix before them
      and the shared suffix after them, replay all of b. */
  lemma ReplayAround<T>(a: seq<T>, b: seq<T>, p: nat, s: nat, mid: seq<Call>)
    requires SharesEnds(a, b, p, s) && Replay(a, b, mid) == Some(Middle(b, p, s))
    ensures Replay(a, b, SkipCalls(p, 0, 0) + mid + SkipCalls(s, |b| - s, |a| - s)) == Some(b)
  {
    var pre, suf := SkipCalls(p, 0, 0), SkipCalls(s, |b| - s, |a| - s);
    var r1, r3 := b[..p], b[|b| - s..];
    assert Replay(a, b, pre) == Some(r1) by {
      ReplaySkips(a, b, p, 0, 0);
      assert a[0..0 + p] == r1;
    }
    assert Replay(a, b, suf) == Some(r3) by {
      ReplaySkips(a, b, s, |b| - s, |a| - s);
      assert a[|a| - s..|a| - s + s] == r3;
    }
    ReplayThree(a, b, pre, mid, suf, r1, Middle(b, p, s), r3);
    SplitThree(b, p, s);
  }

  lemma ReplayThree<T>(a: seq<T>, b: seq<T>, c1: seq<Call>, c2: seq<Call>, c3: seq<Call>,
                       r1: seq<T>, r2: seq<T>, r3: seq<T>)
    requires Replay(a, b, c1) == Some(r1) && Replay(a, b, c2) == Some(r2) && Replay(a, b, c3) == Some(r3)
    ensures Replay(a, b, c1 + c2 + c3) == Some(r1 + r2 + r3)
  {
    ReplayAppend(a, b, c1, c2);
    ReplayAppend(a, b, c1 + c2, c3);
  }

  /** The corrected trace's operation types are an edit script from a to b. */
  lemma IntendedTraceIsScript<T>(c: Comparison, a: seq<T>, b: seq<T>)
    requires Describes(c, a, b)
    ensures IntendedTrace(c).Ok? && Transforms(Kinds(IntendedTrace(c).value), a, b)
  {
    var p, s := c.prefix, c.suffix;
    var x, y := Middle(a, p, s), Middle(b, p, s);
    TraceShape(c, a, b);
    WalkIsScript(c.matrix, x, y, p, 0, 0);
    var w := WalkFrom(c.matrix, p, 0, 0).value;
    var pre, mid, suf := SkipCalls(p, 0, 0), Init(w.calls), SkipCalls(s, p + |y|, p + |x|);
    assert IntendedTrace(c) == Ok(pre + mid + suf);
    SkipCallsCostNothing(p, 0, 0);
    SkipCallsCostNothing(s, p + |y|, p + |x|);
    SkipsTransform(a[..p]);
    SkipsTransform(a[|a| - s..]);
    assert x[0..] == x && y[0..] == y;
    KindsAppend(pre, mid);
    KindsAppend(pre + mid, suf);
    TransformsAppend(Kinds(pre), a[..p], b[..p], Kinds(mid), x, y);
    TransformsAppend(Kinds(pre) + Kinds(mid), a[..p] + x, b[..p] + y, Kinds(suf), a[|a| - s..], b[|b| - s..]);
    SplitThree(a, p, s);
    SplitThree(b, p, s);
  }

  /** The corrected trace makes the same edits as the reported one: they
      differ only in the corner call, a `Skip`, and in the indices of the
      suffix calls. */
  lemma IntendedTraceSameEdits<T>(c: Comparison, a: seq<T>, b: seq<T>)
    requires Describes(c, a, b)
    ensures IntendedTrace(c).Ok? && Trace(c).Ok?
    ensures Cost(Kinds(IntendedTrace(c).value)) == Cost(Kinds(Trace(c).value))
  {
    var p, s := c.prefix, c.suffix;
    var x, y := Middle(a, p, s), Middle(b, p, s);
    TraceShape(c, a, b);
    var w := WalkFrom(c.matrix, p, 0, 0).value;
    assert IntendedTrace(c) == Ok(SkipCalls(p, 0, 0) + Init(w.calls) + SkipCalls(s, p + |y|, p + |x|));
    SkipsAroundCost(p, Init(w.calls), s, p + |y|, p + |x|);
    SkipsAroundCost(p, w.calls, s, p + |y| + 1, p + |x| + 1);
    DropLastSkip(w.calls);
  }

  /** Dropping a final `Skip` call does not change the edit count. */
  lemma DropLastSkip(calls: seq<Call>)
    requires |calls| > 0 && calls[|calls| - 1].op.kind == Skip
    ensures Cost(Kinds(Init(calls))) == Cost(Kinds(calls))
  {
    assert calls == Init(calls) + [calls[|calls| - 1]];
    KindsAppend(Init(calls), [calls[|calls| - 1]]);
    assert Kinds([calls[|calls| - 1]]) == [Skip];
    CostAppend(Kinds(Init(calls)), [Skip]);
  }

  // ---------------------------------------------------------------------
  // Counting edits with reduce

  /** A reducer that counts the removes and adds it is shown. */
  function CountEdit(n: int, op: Op, i: int, j: int): (r: int)
    ensures r == n || r == n + 1
    ensures r == n <==> op.kind == Skip
  {
    if op.kind == Skip then n else n + 1
  }

  lemma {:induction false} FoldCountEdit(acc: int, calls: seq<Call>)
    ensures Fold(CountEdit, acc, calls) == acc + Cost(Kinds(calls))
    decreases |calls|
  {
    if |calls| > 0 {
      FoldCountEdit(CountEdit(acc, calls[0].op, calls[0].i, calls[0].j), calls[1..]);
      assert Kinds(calls)[1..] == Kinds(calls[1..]);
    }
  }

  /** Reducing with the edit counter from zero yields the edit distance. */
  lemma ReduceCountsEdits<T>(c: Comparison, a: seq<T>, b: seq<T>)
    requires Describes(c, a, b)
    ensures Trace(c).Ok? && Fold(CountEdit, 0, Trace(c).value) == EditDist(a, b)
  {
    TraceEditCount(c, a, b);
    FoldCountEdit(0, Trace(c).value);
  }
}
