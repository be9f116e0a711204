/** When `compare`'s result can be trusted, what it gives for a sequence
    against itself, and the two places where the source's output departs
    from an edit script of a into b, each with the input that shows it. */
module LcsFindings {
  import opened EditDistance
  import opened Lcs
  import opened LcsTheorems

  // ---------------------------------------------------------------------
  // When prefix and suffix do not overlap

  /** If the prefix and the suffix `compare` found fit side by side in both
      sequences, its result describes them. */
  lemma NoOverlapDescribes<T>(a: seq<T>, b: seq<T>, c: Comparison)
    requires Compared(a, b, c) && c.prefix + c.suffix <= |a| && c.prefix + c.suffix <= |b|
    ensures Describes(c, a, b)
  {
    var p := c.prefix;
    assert a[..p] == b[..p];
    if p == |a| || p == |b| {
      assert a[|a| - c.suffix..] == [] == b[|b| - c.suffix..];
    }
  }

  /** Sequences of equal length never make prefix and suffix overlap. */
  lemma EqualLengthsDescribe<T>(a: seq<T>, b: seq<T>, c: Comparison)
    requires Compared(a, b, c) && |a| == |b|
    ensures Describes(c, a, b)
  {
    NoOverlapDescribes(a, b, c);
  }

  /** A sequence compared with itself: everything is prefix, the matrix is
      the single corner cell, and `reduce` reports one shared skip per
      element followed by the corner. */
  lemma CompareSelf<T>(a: seq<T>, c: Comparison)
    requires Compared(a, a, c)
    ensures c.prefix == |a| && c.suffix == 0 && Describes(c, a, a)
    ensures c.matrix.Length0 == 1 && c.matrix.Length1 == 1
    ensures Trace(c) == Ok(SkipCalls(|a|, 0, 0) + [Call(Op(0, Skip), |a|, |a|)])
  {
    NoOverlapDescribes(a, a, c);
    BoundaryCells<T>([], []);
    var corner := Call(Op(0, Skip), |a|, |a|);
    assert Middle(a, |a|, 0) == [];
    assert c.matrix[0, 0] == SpecCell<T>([], [], 0, 0);
    assert c.matrix[0, 0] == Op(0, Skip);
    assert WalkFrom(c.matrix, |a|, 1, 1) == Ok(Walk([], 1, 1));
    assert [corner] + [] == [corner];
    assert WalkFrom(c.matrix, |a|, 0, 0) == Ok(Walk([corner], 1, 1));
    assert SkipCalls(|a|, 0, 0) + [corner] + SkipCalls(0, |a| + 1, |a| + 1) == SkipCalls(|a|, 0, 0) + [corner];
  }

  /** The walk over the matrix of two different single elements: the cell
      costs 2, removing and adding tie, so it adds, then removes, then
      reports the corner. */
  lemma OneByOneWalk<T>(m: array2<Op>, u: T, v: T, k: nat)
    requires Matches(m, [u], [v]) && u != v
    ensures WalkFrom(m, k, 0, 0)
      == Ok(Walk([Call(Op(2, Add), k, k), Call(Op(1, Remove), k + 1, k), Call(Op(0, Skip), k + 1, k + 1)], 2, 2))
  {
    var x, y := [u], [v];
    BoundaryCells(x, y);
    assert m[1, 1] == SpecCell(x, y, 1, 1) == Op(0, Skip);
    assert m[1, 0] == SpecCell(x, y, 1, 0) == Op(1, Remove);
    assert m[0, 1] == SpecCell(x, y, 0, 1) == Op(1, Add);
    assert x[1..] == [] && y[1..] == [];
    assert m[0, 0] == SpecCell(x, y, 0, 0) == Op(2, Add);
    var w := [Call(Op(2, Add), k, k), Call(Op(1, Remove), k + 1, k), Call(Op(0, Skip), k + 1, k + 1)];
    assert WalkFrom(m, k, 2, 2) == Ok(Walk([], 2, 2));
    assert [w[2]] + [] == w[2..] && [w[1]] + w[2..] == w[1..] && [w[0]] + w[1..] == w;
    assert WalkFrom(m, k, 1, 1) == Ok(Walk(w[2..], 2, 2));
    assert WalkFrom(m, k, 1, 0) == Ok(Walk(w[1..], 2, 2));
  }

  /** [1, 2, 3, 4] against [1, 5, 3, 4]: one shared element in front, two
      behind, and a one-by-one middle where removing and adding cost the
      same, so the add comes first; the corner is reported as a skip. */
  lemma TieGoesToAdd(c: Comparison)
    requires Compared([1, 2, 3, 4], [1, 5, 3, 4], c)
    ensures c.prefix == 1 && c.suffix == 2
    ensures Trace(c).Ok? && Kinds(Trace(c).value) == [Skip, Add, Remove, Skip, Skip, Skip]
  {
    var a: seq<int>, b: seq<int> := [1, 2, 3, 4], [1, 5, 3, 4];
    assert a[1] != b[1];
    assert c.prefix == 1;
    assert c.suffix != 0 by { assert a[|a| - 1] == b[|b| - 1]; }
    assert c.suffix != 1 by { assert a[|a| - 2] == b[|b| - 2]; }
    assert Middle(a, 1, 2) == [2] && Middle(b, 1, 2) == [5];
    OneByOneWalk(c.matrix, 2, 5, 1);
  }

  /** Swapping the sequences does not mirror the edits: [2] against [5] and
      [5] against [2] both add first and remove second, because a tie goes
      to the add either way. */
  lemma TieNotMirrored(c1: Comparison, c2: Comparison)
    requires Compared([2], [5], c1) && Compared([5], [2], c2)
    ensures Trace(c1).Ok? && Kinds(Trace(c1).value) == [Add, Remove, Skip]
    ensures Trace(c2).Ok? && Kinds(Trace(c2).value) == [Add, Remove, Skip]
  {
    var a: seq<int>, b: seq<int> := [2], [5];
    assert a[0] != b[0];
    assert c1.prefix == 0 && c2.prefix == 0;
    assert Middle(a, 0, 0) == a && Middle(b, 0, 0) == b;
    OneByOneWalk(c1.matrix, 2, 5, 0);
    OneByOneWalk(c2.matrix, 5, 2, 0);
    var w1 := WalkFrom(c1.matrix, 0, 0, 0).value.calls;
    var w2 := WalkFrom(c2.matrix, 0, 0, 0).value.calls;
    assert Trace(c1).value == [] + w1 + [];
    assert Trace(c2).value == [] + w2 + [];
  }

  // ---------------------------------------------------------------------
  // Finding: the suffix scan may overlap the prefix

  /** As written: [1, 1, 1, 2] against [1, 1, 2] gives prefix 2 and suffix
      2, which overlap in the second sequence; `reduce` reports four skips
      and no edit, though one element has to go. */
  lemma OverlapHidesEdit(c: Comparison)
    requires Compared([1, 1, 1, 2], [1, 1, 2], c)
    ensures c.prefix == 2 && c.suffix == 2
    ensures Trace(c) == Ok(SkipCalls(2, 0, 0) + SkipCalls(2, 2, 2))
    ensures Cost(Kinds(Trace(c).value)) == 0 && EditDist([1, 1, 1, 2], [1, 1, 2]) == 1
  {
    var a: seq<int>, b: seq<int> := [1, 1, 1, 2], [1, 1, 2];
    assert a[2] != b[2];
    assert c.prefix == 2;
    assert c.suffix != 0 by { assert a[|a| - 1] == b[|b| - 1]; }
    assert c.suffix != 1 by { assert a[|a| - 2] == b[|b| - 2]; }
    SkipCallsCostNothing(2, 0, 0);
    SkipCallsCostNothing(2, 2, 2);
    KindsAppend(SkipCalls(2, 0, 0), SkipCalls(2, 2, 2));
    CostAppend(Skips(2), Skips(2));
    assert SkipCalls(2, 0, 0) + [] + SkipCalls(2, 2, 2) == SkipCalls(2, 0, 0) + SkipCalls(2, 2, 2);
    assert a[1..] == [1, 1, 2] && a[1..][1..] == [1, 2] && a[1..][1..][1..] == [2];
    assert b[1..] == [1, 2] && b[1..][1..] == [2] && b[1..][1..][1..] == [];
  }

  /** As written: [1, 1, 1] against [1, 1, 2, 1, 1] gives prefix 2 and
      suffix 2, which overlap in the first sequence; the matrix rows have no
      cells, and `reduce` fails reading the first one. */
  lemma OverlapFailsToReduce(c: Comparison)
    requires Compared([1, 1, 1], [1, 1, 2, 1, 1], c)
    ensures c.prefix == 2 && c.suffix == 2
    ensures Trace(c) == Undefined(0, 0)
  {
    var a: seq<int>, b: seq<int> := [1, 1, 1], [1, 1, 2, 1, 1];
    assert a[2] != b[2];
    assert c.prefix == 2;
    assert c.suffix != 0 by { assert a[|a| - 1] == b[|b| - 1]; }
    assert c.suffix != 1 by { assert a[|a| - 2] == b[|b| - 2]; }
  }

  /** Corrected: on the same input, `CompareWithin` keeps suffix 1 and
      reports the one edit. */
  lemma WithinKeepsEdit(c: Comparison)
    requires ComparedWithin([1, 1, 1, 2], [1, 1, 2], c)
    ensures c.prefix == 2 && c.suffix == 1
    ensures Trace(c).Ok? && Cost(Kinds(Trace(c).value)) == 1
  {
    var a: seq<int>, b: seq<int> := [1, 1, 1, 2], [1, 1, 2];
    assert a[2] != b[2];
    assert c.prefix == 2;
    assert c.suffix != 0 by { assert a[|a| - 1] == b[|b| - 1]; }
    TraceEditCount(c, a, b);
    assert a[1..] == [1, 1, 2] && a[1..][1..] == [1, 2] && a[1..][1..][1..] == [2];
    assert b[1..] == [1, 2] && b[1..][1..] == [2] && b[1..][1..][1..] == [];
  }

  /** The longest common prefix has one length. */
  lemma PrefixLenUnique<T>(a: seq<T>, b: seq<T>, n1: nat, n2: nat)
    requires IsPrefixLen(a, b, n1) && IsPrefixLen(a, b, n2)
    ensures n1 == n2
  {
  }

  /** Where the source's suffix does not reach into the prefix, the bounded
      scan finds the same suffix. */
  lemma WithinAgreesWithScan<T>(a: seq<T>, b: seq<T>, prefix: nat, s1: nat, s2: nat)
    requires IsSuffixScan(a, b, s1) && prefix + s1 <= |a| && prefix + s1 <= |b|
    requires IsSuffixWithin(a, b, prefix, s2)
    ensures s1 == s2
  {
  }

  /** The correction changes nothing on inputs the source already handles:
      when `compare`'s prefix and suffix do not overlap, `CompareWithin`
      finds the same prefix and suffix and the same matrix. */
  lemma CompareWithinAgrees<T>(a: seq<T>, b: seq<T>, c1: Comparison, c2: Comparison)
    requires Compared(a, b, c1) && c1.prefix + c1.suffix <= |a| && c1.prefix + c1.suffix <= |b|
    requires ComparedWithin(a, b, c2)
    ensures c1.prefix == c2.prefix && c1.suffix == c2.suffix
    ensures c1.matrix.Length0 == c2.matrix.Length0 && c1.matrix.Length1 == c2.matrix.Length1
    ensures forall i, j :: 0 <= i < c1.matrix.Length0 && 0 <= j < c1.matrix.Length1 ==>
      c1.matrix[i, j] == c2.matrix[i, j]
  {
    PrefixLenUnique(a, b, c1.prefix, c2.prefix);
    if c1.prefix != |a| && c1.prefix != |b| {
      WithinAgreesWithScan(a, b, c1.prefix, c1.suffix, c2.suffix);
    }
    NoOverlapDescribes(a, b, c1);
  }

  // ---------------------------------------------------------------------
  // Finding: the corner is reported and the suffix is shifted by one

  lemma {:induction false} ReplayFailsAfter<T>(a: seq<T>, b: seq<T>, c1: seq<Call>, c2: seq<Call>)
    requires Replay(a, b, c2).None?
    ensures Replay(a, b, c1 + c2).None?
    decreases |c1|
  {
    if |c1| == 0 {
      assert c1 + c2 == c2;
    } else {
      assert c1 + c2 == [c1[0]] + (c1[1..] + c2);
      ReplayFailsAfter(a, b, c1[1..], c2);
      ReplayCons(a, b, c1[0], c1[1..] + c2);
    }
  }

  /** As written: the last call `reduce` makes is a skip at row |b| and
      column |a|, one past the end of both sequences, so its calls never
      replay into b. */
  lemma TraceOverruns<T>(c: Comparison, a: seq<T>, b: seq<T>)
    requires Describes(c, a, b)
    ensures Trace(c).Ok?
    ensures var t := Trace(c).value;
      |t| > 0 && t[|t| - 1].op.kind == Skip && t[|t| - 1].i == |b| && t[|t| - 1].j == |a|
      && Replay(a, b, t) == None
  {
    TraceEndsPastBoth(c, a, b);
    ReplayFailsPastEnd(a, b, Trace(c).value);
  }

  lemma TraceEndsPastBoth<T>(c: Comparison, a: seq<T>, b: seq<T>)
    requires Describes(c, a, b)
    ensures Trace(c).Ok?
    ensures var t := Trace(c).value;
      |t| > 0 && t[|t| - 1].op.kind == Skip && t[|t| - 1].i == |b| && t[|t| - 1].j == |a|
  {
    TraceShape(c, a, b);
    if c.suffix == 0 {
      var w := WalkFrom(c.matrix, c.prefix, 0, 0).value;
      assert Trace(c).value == SkipCalls(c.prefix, 0, 0) + w.calls + [];
    }
  }

  /** Calls whose last one reads the first sequence past its end do not
      replay. */
  lemma ReplayFailsPastEnd<T>(a: seq<T>, b: seq<T>, t: seq<Call>)
    requires |t| > 0 && t[|t| - 1].op.kind == Skip && t[|t| - 1].j == |a|
    ensures Replay(a, b, t) == None
  {
    var last := t[|t| - 1];
    assert t == Init(t) + [last];
    assert Replay(a, b, [last]) == None by {
      ReplayCons(a, b, last, []);
    }
    ReplayFailsAfter(a, b, Init(t), [last]);
  }
}
