/** Insert/delete-only edit distance between two sequences, edit scripts,
    and the facts about them that the lcs matrix relies on: the distance is
    symmetric, it is a lower bound on the cost of every edit script, and
    stripping a shared prefix or suffix does not change it. */
module EditDistance {

  /** The three kinds of edit step. `Remove` consumes an element of the first
      sequence only, `Add` an element of the second only, `Skip` one equal
      element of both. */
  datatype OpType = Remove | Skip | Add

  function Min(x: nat, y: nat): nat { if x <= y then x else y }

  /** Fewest deletions from x plus insertions from y that turn x into y.
      Equal leading elements are matched: the first argument of the
      recurrence is a suffix of the first sequence, the second one of the
      second sequence. */
  function EditDist<T(==)>(x: seq<T>, y: seq<T>): nat
    decreases |x| + |y|
  {
    if |x| == 0 then |y|
    else if |y| == 0 then |x|
    else if x[0] == y[0] then EditDist(x[1..], y[1..])
    else 1 + Min(EditDist(x[1..], y), EditDist(x, y[1..]))
  }

  /** Applying the steps of s to x, from the left, consumes all of x and
      produces exactly y. */
  predicate Transforms<T(==)>(s: seq<OpType>, x: seq<T>, y: seq<T>)
    decreases |s|
  {
    if |s| == 0 then |x| == 0 && |y| == 0
    else match s[0]
      case Skip => |x| > 0 && |y| > 0 && x[0] == y[0] && Transforms(s[1..], x[1..], y[1..])
      case Remove => |x| > 0 && Transforms(s[1..], x[1..], y)
      case Add => |y| > 0 && Transforms(s[1..], x, y[1..])
  }

  /** Number of steps of s that are not `Skip`. */
  function Cost(s: seq<OpType>): (c: nat)
    ensures c <= |s|
  {
    if |s| == 0 then 0 else (if s[0] == Skip then 0 else 1) + Cost(s[1..])
  }

  /** n `Skip` steps. */
  function Skips(n: nat): (s: seq<OpType>)
    ensures |s| == n && forall t :: 0 <= t < n ==> s[t] == Skip
  {
    seq(n, _ => Skip)
  }

  /** p leading and s trailing elements of a and b agree, and the two runs do
      not overlap in either sequence. */
  predicate SharesEnds<T(==)>(a: seq<T>, b: seq<T>, p: nat, s: nat)
  {
    p + s <= |a| && p + s <= |b| && a[..p] == b[..p] && a[|a| - s..] == b[|b| - s..]
  }

  /** The part of a left between a shared prefix of length p and a shared
      suffix of length s. */
  function Middle<T>(a: seq<T>, p: nat, s: nat): (m: seq<T>)
    requires p + s <= |a|
    ensures |m| == |a| - p - s
  {
    a[p..|a| - s]
  }

  /** A sequence is its shared prefix, its middle and its shared suffix. */
  lemma SplitThree<T>(a: seq<T>, p: nat, s: nat)
    requires p + s <= |a|
    ensures a == a[..p] + Middle(a, p, s) + a[|a| - s..]
  {
    assert a == a[..p] + a[p..];
    assert a[p..] == Middle(a, p, s) + a[|a| - s..];
  }

  // ---------------------------------------------------------------------
  // Basic bounds and symmetry

  lemma {:induction false} LengthBounds<T>(x: seq<T>, y: seq<T>)
    ensures |x| - |y| <= EditDist(x, y) <= |x| + |y|
    ensures |y| - |x| <= EditDist(x, y)
    decreases |x| + |y|
  {
    if |x| == 0 || |y| == 0 {
    } else if x[0] == y[0] {
      LengthBounds(x[1..], y[1..]);
    } else {
      LengthBounds(x[1..], y);
      LengthBounds(x, y[1..]);
    }
  }

  lemma {:induction false} EditDistSym<T>(x: seq<T>, y: seq<T>)
    ensures EditDist(x, y) == EditDist(y, x)
    decreases |x| + |y|
  {
    if |x| == 0 || |y| == 0 {
    } else if x[0] == y[0] {
      EditDistSym(x[1..], y[1..]);
    } else {
      EditDistSym(x[1..], y);
      EditDistSym(x, y[1..]);
    }
  }

  // ---------------------------------------------------------------------
  // One more element changes the distance by at most one

  /** Deleting the head of u first costs at most one extra step. */
  lemma {:induction false} DropFirstBound<T>(u: seq<T>, v: seq<T>)
    requires |u| > 0
    ensures EditDist(u, v) <= 1 + EditDist(u[1..], v)
    decreases |u| + |v|, 1
  {
    if |v| == 0 {
    } else if u[0] == v[0] {
      DropSecondLower(u[1..], v);
    }
  }

  /** Removing the head of q lowers the distance by at most one. */
  lemma {:induction false} DropSecondLower<T>(p: seq<T>, q: seq<T>)
    requires |q| > 0
    ensures EditDist(p, q[1..]) <= 1 + EditDist(p, q)
    decreases |p| + |q|, 0
  {
    if |p| == 0 {
    } else if |q| == 1 {
      LengthBounds(p, q);
    } else if p[0] == q[0] {
      DropFirstBound(p, q[1..]);
    } else if EditDist(p[1..], q) <= EditDist(p, q[1..]) {
      DropSecondLower(p[1..], q);
      DropFirstBound(p, q[1..]);
    }
  }

  /** Inserting the head of v first costs at most one extra step. */
  lemma DropSecondBound<T>(u: seq<T>, v: seq<T>)
    requires |v| > 0
    ensures EditDist(u, v) <= 1 + EditDist(u, v[1..])
  {
    EditDistSym(u, v);
    EditDistSym(u, v[1..]);
    DropFirstBound(v, u);
  }

  /** The recurrence read at positions j of x and i of y. */
  lemma EditDistAt<T>(x: seq<T>, y: seq<T>, i: nat, j: nat)
    requires i < |y| && j < |x|
    ensures EditDist(x[j..], y[i..]) ==
      if x[j] == y[i] then EditDist(x[j + 1..], y[i + 1..])
      else 1 + Min(EditDist(x[j + 1..], y[i..]), EditDist(x[j..], y[i + 1..]))
  {
    assert x[j..][1..] == x[j + 1..];
    assert y[i..][1..] == y[i + 1..];
  }

  // ---------------------------------------------------------------------
  // The distance is a lower bound on every edit script

  lemma {:induction false} EditDistMinimal<T>(s: seq<OpType>, x: seq<T>, y: seq<T>)
    requires Transforms(s, x, y)
    ensures EditDist(x, y) <= Cost(s)
    decreases |s|
  {
    if |s| > 0 {
      match s[0]
      case Skip =>
        EditDistMinimal(s[1..], x[1..], y[1..]);
      case Remove =>
        EditDistMinimal(s[1..], x[1..], y);
        DropFirstBound(x, y);
      case Add =>
        EditDistMinimal(s[1..], x, y[1..]);
        DropSecondBound(x, y);
    }
  }

  // ---------------------------------------------------------------------
  // Composing scripts

  /** The edits of two scripts run one after the other add up. */
  lemma {:induction false} CostAppend(s1: seq<OpType>, s2: seq<OpType>)
    ensures Cost(s1 + s2) == Cost(s1) + Cost(s2)
    decreases |s1|
  {
    if |s1| == 0 {
      assert s1 + s2 == s2;
    } else {
      assert (s1 + s2)[1..] == s1[1..] + s2;
      CostAppend(s1[1..], s2);
    }
  }

  lemma {:induction false} TransformsAppend<T>(s1: seq<OpType>, x1: seq<T>, y1: seq<T>,
                                               s2: seq<OpType>, x2: seq<T>, y2: seq<T>)
    requires Transforms(s1, x1, y1) && Transforms(s2, x2, y2)
    ensures Transforms(s1 + s2, x1 + x2, y1 + y2)
    ensures Cost(s1 + s2) == Cost(s1) + Cost(s2)
    decreases |s1|
  {
    CostAppend(s1, s2);
    if |s1| == 0 {
      assert s1 + s2 == s2 && x1 + x2 == x2 && y1 + y2 == y2;
    } else {
      assert (s1 + s2)[1..] == s1[1..] + s2;
      match s1[0]
      case Skip =>
        TransformsAppend(s1[1..], x1[1..], y1[1..], s2, x2, y2);
        assert (x1 + x2)[1..] == x1[1..] + x2;
        assert (y1 + y2)[1..] == y1[1..] + y2;
      case Remove =>
        TransformsAppend(s1[1..], x1[1..], y1, s2, x2, y2);
        assert (x1 + x2)[1..] == x1[1..] + x2;
      case Add =>
        TransformsAppend(s1[1..], x1, y1[1..], s2, x2, y2);
        assert (y1 + y2)[1..] == y1[1..] + y2;
    }
  }

  /** Skipping over every element turns a sequence into itself at no cost. */
  lemma {:induction false} SkipsTransform<T>(u: seq<T>)
    ensures Transforms(Skips(|u|), u, u) && Cost(Skips(|u|)) == 0
    decreases |u|
  {
    if |u| > 0 {
      SkipsTransform(u[1..]);
      assert Skips(|u|)[1..] == Skips(|u| - 1);
    }
  }

  // ---------------------------------------------------------------------
  // Trimming a shared prefix or suffix keeps the distance

  lemma {:induction false} CommonPrefixKeepsDist<T>(pre: seq<T>, x: seq<T>, y: seq<T>)
    ensures EditDist(pre + x, pre + y) == EditDist(x, y)
    decreases |pre|
  {
    if |pre| > 0 {
      CommonPrefixKeepsDist(pre[1..], x, y);
      assert (pre + x)[1..] == pre[1..] + x;
      assert (pre + y)[1..] == pre[1..] + y;
    } else {
      assert pre + x == x && pre + y == y;
    }
  }

  lemma {:induction false} SingleVsAppended<T>(c: T, z: seq<T>)
    ensures EditDist([c], z + [c]) == |z|
    decreases |z|
  {
    if |z| > 0 {
      assert (z + [c])[1..] == z[1..] + [c];
      if z[0] != c {
        SingleVsAppended(c, z[1..]);
      }
    }
  }

  lemma {:induction false} CommonLastKeepsDist<T>(x: seq<T>, y: seq<T>, c: T)
    ensures EditDist(x + [c], y + [c]) == EditDist(x, y)
    decreases |x| + |y|
  {
    if |x| == 0 {
      assert x + [c] == [c];
      SingleVsAppended(c, y);
    } else if |y| == 0 {
      assert y + [c] == [c];
      SingleVsAppended(c, x);
      EditDistSym(x + [c], [c]);
    } else {
      assert (x + [c])[1..] == x[1..] + [c];
      assert (y + [c])[1..] == y[1..] + [c];
      if x[0] == y[0] {
        CommonLastKeepsDist(x[1..], y[1..], c);
      } else {
        CommonLastKeepsDist(x[1..], y, c);
        CommonLastKeepsDist(x, y[1..], c);
      }
    }
  }

  lemma {:induction false} CommonSuffixKeepsDist<T>(x: seq<T>, y: seq<T>, suf: seq<T>)
    ensures EditDist(x + suf, y + suf) == EditDist(x, y)
    decreases |suf|
  {
    if |suf| == 0 {
      assert x + suf == x && y + suf == y;
    } else {
      var init, c := suf[..|suf| - 1], suf[|suf| - 1];
      assert suf == init + [c];
      assert x + suf == (x + init) + [c];
      assert y + suf == (y + init) + [c];
      CommonLastKeepsDist(x + init, y + init, c);
      CommonSuffixKeepsDist(x, y, init);
    }
  }

  /** Two sequences that share p leading and s trailing elements are as far
      apart as their middles. */
  lemma TrimKeepsDist<T>(a: seq<T>, b: seq<T>, p: nat, s: nat)
    requires SharesEnds(a, b, p, s)
    ensures EditDist(a, b) == EditDist(Middle(a, p, s), Middle(b, p, s))
  {
    var x, y := Middle(a, p, s), Middle(b, p, s);
    var pre, suf := a[..p], a[|a| - s..];
    assert a == pre + (x + suf) by { SplitThree(a, p, s); }
    assert b == pre + (y + suf) by { SplitThree(b, p, s); }
    CommonPrefixKeepsDist(pre, x + suf, y + suf);
    CommonSuffixKeepsDist(x, y, suf);
  }
}
