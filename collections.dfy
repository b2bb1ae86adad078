/** Sequence helpers: the distinct values of a column in order of first
    appearance, as a Series' `unique()` gives them. */
module Collections {

  predicate NoDuplicates<T(==)>(s: seq<T>) {
    forall i, j :: 0 <= i < j < |s| ==> s[i] != s[j]
  }

  /** The distinct elements of `s`, each once, in order of first appearance. */
  function Unique<T(==)>(s: seq<T>): (d: seq<T>)
    ensures NoDuplicates(d)
    ensures forall i :: 0 <= i < |d| ==> d[i] in s
    ensures forall i :: 0 <= i < |s| ==> s[i] in d
    ensures |d| <= |s|
  {
    if s == [] then []
    else
      var prev := Unique(s[..|s| - 1]);
      var last := s[|s| - 1];
      assert s == s[..|s| - 1] + [last];
      if last in prev then prev else prev + [last]
  }

  /** Unique of a prefix is a prefix of Unique: later elements never reorder earlier ones. */
  lemma {:induction false} UniquePrefix<T>(s: seq<T>, k: nat)
    requires k <= |s|
    ensures Unique(s[..k]) <= Unique(s)
    decreases |s|
  {
    if k < |s| {
      var init := s[..|s| - 1];
      assert init[..k] == s[..k];
      UniquePrefix(init, k);
    } else {
      assert s[..k] == s;
    }
  }

  /** A sequence holding one value throughout has exactly that value as its unique element. */
  lemma UniqueOfConstant<T>(s: seq<T>)
    requires |s| > 0
    requires forall j :: 0 <= j < |s| ==> s[j] == s[0]
    ensures Unique(s) == [s[0]]
  {
    var d := Unique(s);
    assert s[0] in d;
  }

  /** The first unique element is the first element. */
  lemma UniqueFirst<T>(s: seq<T>)
    requires |s| > 0
    ensures |Unique(s)| > 0 && Unique(s)[0] == s[0]
  {
    UniqueOfConstant(s[..1]);
    UniquePrefix(s, 1);
  }

  /** When s[k] is the first element that differs from s[0], the first two
      unique elements are s[0] and s[k]. */
  lemma UniqueFirstTwo<T>(s: seq<T>, k: nat)
    requires 0 < k < |s| && s[k] != s[0]
    requires forall j :: 0 <= j < k ==> s[j] == s[0]
    ensures |Unique(s)| >= 2 && Unique(s)[0] == s[0] && Unique(s)[1] == s[k]
  {
    var pre := s[..k];
    UniqueOfConstant(pre);
    var pre1 := s[..k + 1];
    assert pre1[..k] == pre;
    assert pre1[k] == s[k];
    assert Unique(pre1) == [s[0], s[k]];
    UniquePrefix(s, k + 1);
  }

  /** There are at least two unique elements exactly when two elements differ. */
  lemma UniqueAtLeastTwo<T>(s: seq<T>)
    ensures |Unique(s)| >= 2 <==> exists i, j :: 0 <= i < |s| && 0 <= j < |s| && s[i] != s[j]
  {
    var d := Unique(s);
    if |d| >= 2 {
      assert d[0] in s && d[1] in s;
      var i :| 0 <= i < |s| && s[i] == d[0];
      var j :| 0 <= j < |s| && s[j] == d[1];
      assert s[i] != s[j];
    } else {
      forall i, j | 0 <= i < |s| && 0 <= j < |s| ensures s[i] == s[j] {
        assert s[i] in d && s[j] in d;
      }
    }
  }
}
