/** Sizes of sets and of lists without repetition. */
module Sets {

  ghost predicate Distinct<T>(s: seq<T>) {
    forall i, j :: 0 <= i < j < |s| ==> s[i] != s[j]
  }

  function ToSet<T>(s: seq<T>): set<T> { set x | x in s }

  lemma SubsetSize<T>(a: set<T>, b: set<T>)
    requires a <= b
    ensures |a| <= |b|
    ensures |a| == |b| ==> a == b
  {
    assert b == a + (b - a);
    assert |b| == |a| + |b - a|;
  }

  lemma DistinctCons<T>(x: T, rest: seq<T>)
    ensures Distinct([x] + rest) <==> x !in rest && Distinct(rest)
  {
    var s := [x] + rest;
    if Distinct(s) {
      forall i | 0 <= i < |rest| ensures rest[i] != x { assert s[0] != s[i + 1]; }
      forall i, j | 0 <= i < j < |rest| ensures rest[i] != rest[j] { assert s[i + 1] != s[j + 1]; }
    }
  }

  lemma {:induction false} SetSize<T>(s: seq<T>)
    ensures |ToSet(s)| <= |s|
    ensures |ToSet(s)| == |s| <==> Distinct(s)
  {
    if s != [] {
      var rest := s[1..];
      SetSize(rest);
      assert s == [s[0]] + rest;
      DistinctCons(s[0], rest);
      assert ToSet(s) == {s[0]} + ToSet(rest);
      assert s[0] in ToSet(rest) <==> s[0] in rest;
    }
  }
}
