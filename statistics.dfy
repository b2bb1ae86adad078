/** The two summary statistics the imputation uses: the median of a numeric
    column and a mode (most frequent value) of an object column. */
module Statistics {
  import opened Sorting

  /** Which side of a candidate median a value lies on. */
  datatype Side = Below | Above

  predicate Beyond(x: real, m: real, side: Side) {
    match side
    case Below => x < m
    case Above => x > m
  }

  /** How many values of `xs` lie strictly on `side` of `m`. */
  function CountBeyond(xs: seq<real>, m: real, side: Side): (n: nat)
    ensures n <= |xs|
  {
    if xs == [] then 0
    else (if Beyond(xs[0], m, side) then 1 else 0) + CountBeyond(xs[1..], m, side)
  }

  lemma {:induction false} CountBeyondAppend(a: seq<real>, b: seq<real>, m: real, side: Side)
    ensures CountBeyond(a + b, m, side) == CountBeyond(a, m, side) + CountBeyond(b, m, side)
  {
    if a == [] {
      assert a + b == b;
    } else {
      assert (a + b)[1..] == a[1..] + b;
      CountBeyondAppend(a[1..], b, m, side);
    }
  }

  lemma {:induction false} CountBeyondNone(xs: seq<real>, m: real, side: Side)
    requires forall i :: 0 <= i < |xs| ==> !Beyond(xs[i], m, side)
    ensures CountBeyond(xs, m, side) == 0
  {
    if xs != [] {
      CountBeyondNone(xs[1..], m, side);
    }
  }

  lemma RemoveAt(b: seq<real>, k: nat)
    requires k < |b|
    ensures multiset(b[..k] + b[k + 1..]) == multiset(b) - multiset{b[k]}
  {
    assert b == b[..k] + [b[k]] + b[k + 1..];
  }

  /** Counting around position `k`: the prefix before it, b[k] itself, the suffix after it. */
  lemma CountBeyondSplit(b: seq<real>, k: nat, m: real, side: Side)
    requires k < |b|
    ensures CountBeyond(b, m, side)
         == CountBeyond(b[..k] + b[k + 1..], m, side) + (if Beyond(b[k], m, side) then 1 else 0)
  {
    var tail := b[k..];
    assert b == b[..k] + tail;
    CountBeyondAppend(b[..k], tail, m, side);
    assert tail[1..] == b[k + 1..];
    CountBeyondAppend(b[..k], b[k + 1..], m, side);
  }

  /** The count does not depend on the order of the values. */
  lemma {:induction false} CountBeyondPermutation(a: seq<real>, b: seq<real>, m: real, side: Side)
    requires multiset(a) == multiset(b)
    ensures CountBeyond(a, m, side) == CountBeyond(b, m, side)
    decreases |a|
  {
    if a == [] {
      assert |b| == |multiset(b)| == 0;
    } else {
      var x := a[0];
      assert x in multiset(b);
      var k :| 0 <= k < |b| && b[k] == x;
      var rest := b[..k] + b[k + 1..];
      RemoveAt(b, k);
      assert a == [x] + a[1..];
      assert multiset(a[1..]) == multiset(a) - multiset{x};
      CountBeyondPermutation(a[1..], rest, m, side);
      CountBeyondSplit(b, k, m, side);
    }
  }

  /** `m` splits `xs` in half: at most half the values lie below it and at
      most half above it. */
  ghost predicate IsMedian(xs: seq<real>, m: real) {
    && CountBeyond(xs, m, Below) <= |xs| / 2
    && CountBeyond(xs, m, Above) <= |xs| / 2
  }

  /** The middle of a sorted sequence: its middle element, or the mean of its
      two middle elements when its length is even. */
  function Middle(s: seq<real>): real
    requires |s| > 0
  {
    var k := |s| / 2;
    if |s| % 2 == 1 then s[k] else (s[k - 1] + s[k]) / 2.0
  }

  /** In a sorted sequence nothing from index `k` on lies below `m` when
      s[k] is at least `m`, and nothing before `k` lies above `m` when s[k-1]
      is at most `m`. */
  lemma SplitCounts(s: seq<real>, k: nat, m: real)
    requires 0 < k <= |s|
    requires forall i, j :: 0 <= i < j < |s| ==> s[i] <= s[j]
    requires s[k - 1] <= m && (k < |s| ==> m <= s[k])
    ensures CountBeyond(s, m, Below) <= k
    ensures CountBeyond(s, m, Above) <= |s| - k
  {
    assert s == s[..k] + s[k..];
    forall i | 0 <= i < |s| - k ensures !Beyond(s[k..][i], m, Below) {
      assert s[k..][i] == s[k + i];
      assert s[k] <= s[k + i];
    }
    forall i | 0 <= i < k ensures !Beyond(s[..k][i], m, Above) {
      assert s[..k][i] <= s[k - 1];
    }
    CountBeyondNone(s[k..], m, Below);
    CountBeyondNone(s[..k], m, Above);
    CountBeyondAppend(s[..k], s[k..], m, Below);
    CountBeyondAppend(s[..k], s[k..], m, Above);
  }

  lemma MiddleIsMedian(s: seq<real>)
    requires |s| > 0
    requires forall i, j :: 0 <= i < j < |s| ==> s[i] <= s[j]
    ensures IsMedian(s, Middle(s))
  {
    var k := |s| / 2;
    if |s| % 2 == 1 {
      // the middle element: at most k values lie before it and k after it
      SplitCounts(s, k + 1, s[k]);
      if k > 0 {
        SplitCounts(s, k, s[k]);
      } else {
        CountBeyondNone(s, s[k], Below);
      }
    } else {
      SplitCounts(s, k, Middle(s));
    }
  }

  lemma MedianOfSorted(xs: seq<real>, s: seq<real>)
    requires |xs| > 0
    requires multiset(s) == multiset(xs)
    requires forall i, j :: 0 <= i < j < |s| ==> s[i] <= s[j]
    ensures |s| == |xs|
    ensures IsMedian(xs, Middle(s))
    ensures |xs| % 2 == 1 ==> Middle(s) in xs
    ensures |xs| % 2 == 0 ==> exists i, j :: 0 <= i < |xs| && 0 <= j < |xs| && Middle(s) == (xs[i] + xs[j]) / 2.0
  {
    assert |s| == |multiset(s)| == |xs|;
    var m := Middle(s);
    var k := |s| / 2;
    MiddleIsMedian(s);
    CountBeyondPermutation(s, xs, m, Below);
    CountBeyondPermutation(s, xs, m, Above);
    assert s[k] in multiset(xs);
    if |xs| % 2 == 0 {
      assert s[k - 1] in multiset(xs);
      var i :| 0 <= i < |xs| && xs[i] == s[k - 1];
      var j :| 0 <= j < |xs| && xs[j] == s[k];
    }
  }

  /** `s` is in non-decreasing order. */
  ghost predicate Ascending(s: seq<real>) {
    forall i, j :: 0 <= i < j < |s| ==> s[i] <= s[j]
  }

  /** The values in ascending order are unique: two ascending permutations
      of each other are equal. */
  lemma {:induction false} AscendingPermutationUnique(a: seq<real>, b: seq<real>)
    requires Ascending(a) && Ascending(b) && multiset(a) == multiset(b)
    ensures a == b
    decreases |a|
  {
    assert |a| == |multiset(a)| == |multiset(b)| == |b|;
    if a != [] {
      SmallestFirst(a, b);
      AscendingTail(a);
      AscendingTail(b);
      AscendingPermutationUnique(a[1..], b[1..]);
    }
  }

  /** An ascending sequence is its first element followed by an ascending tail. */
  lemma AscendingTail(a: seq<real>)
    requires Ascending(a) && |a| > 0
    ensures a == [a[0]] + a[1..]
    ensures Ascending(a[1..])
    ensures multiset(a[1..]) == multiset(a) - multiset{a[0]}
  {
    assert a == [a[0]] + a[1..];
    forall i, j | 0 <= i < j < |a[1..]| ensures a[1..][i] <= a[1..][j] {
      assert a[1..][i] == a[i + 1] && a[1..][j] == a[j + 1];
    }
  }

  /** Both ascending permutations start with the smallest value. */
  lemma SmallestFirst(a: seq<real>, b: seq<real>)
    requires Ascending(a) && Ascending(b) && multiset(a) == multiset(b)
    requires |a| > 0 && |b| > 0
    ensures a[0] == b[0]
  {
    assert a[0] in multiset(b);
    var k :| 0 <= k < |b| && b[k] == a[0];
    assert b[0] <= a[0];
    assert b[0] in multiset(a);
    var j :| 0 <= j < |a| && a[j] == b[0];
  }

  /** The median as pandas computes it: the middle value of the values in
      ascending order, or the mean of the two middle values when their
      number is even. */
  function Median(xs: seq<real>): (m: real)
    requires |xs| > 0
    ensures forall s :: Ascending(s) && multiset(s) == multiset(xs) && |s| == |xs| ==> m == Middle(s)
    ensures IsMedian(xs, m)
    ensures |xs| % 2 == 1 ==> m in xs
    ensures |xs| % 2 == 0 ==> exists i, j :: 0 <= i < |xs| && 0 <= j < |xs| && m == (xs[i] + xs[j]) / 2.0
  {
    var s := SortBy(xs, x => x);
    assert Ascending(s);
    MedianOfSorted(xs, s);
    assert forall s' :: Ascending(s') && multiset(s') == multiset(xs) && |s'| == |xs| ==> Middle(s) == Middle(s') by {
      forall s' | Ascending(s') && multiset(s') == multiset(xs) && |s'| == |xs| ensures Middle(s) == Middle(s') {
        AscendingPermutationUnique(s, s');
      }
    }
    Middle(s)
  }

  /** The candidate that occurs most often in `all`, the earliest on ties. */
  function MostFrequent<T(==)>(candidates: seq<T>, all: seq<T>): (m: T)
    requires |candidates| > 0
    ensures m in candidates
    ensures forall i :: 0 <= i < |candidates| ==> multiset(all)[candidates[i]] <= multiset(all)[m]
  {
    if |candidates| == 1 then candidates[0]
    else
      var best := MostFrequent(candidates[1..], all);
      if multiset(all)[candidates[0]] >= multiset(all)[best] then candidates[0] else best
  }

  /** A mode of `values`: one of them, occurring at least as often as any other value. */
  function Mode<T(==, !new)>(values: seq<T>): (m: T)
    requires |values| > 0
    ensures m in values
    ensures forall v :: multiset(values)[v] <= multiset(values)[m]
  {
    var m := MostFrequent(values, values);
    assert forall v :: v in values ==> multiset(values)[v] <= multiset(values)[m] by {
      forall v | v in values ensures multiset(values)[v] <= multiset(values)[m] {
        var i :| 0 <= i < |values| && values[i] == v;
      }
    }
    m
  }
}
