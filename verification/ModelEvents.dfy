/**
 Events of a node's feed and the canonical order in which the sync scenarios compare them
 (suite/src/__tests__/correctness/fast/sync-events.test.ts).
 */
module ModelEvents {
  import opened Sets

  /** An event as the node returns it: its CID and its encoded CAR file. */
  datatype Event = Event(id: string, data: string)

  function Ids(events: seq<Event>): (ids: seq<string>)
    ensures |ids| == |events|
    ensures forall i :: 0 <= i < |events| ==> ids[i] == events[i].id
  {
    if events == [] then [] else [events[0].id] + Ids(events[1..])
  }

  // ----- the order on ids -----

  /** The language's `<` on strings: the first differing character decides, a proper prefix is smaller. */
  predicate Below(a: string, b: string) {
    b != "" && (a == "" || a[0] < b[0] || (a[0] == b[0] && Below(a[1..], b[1..])))
  }

  /** The comparator handed to the sort. */
  function Compare(a: Event, b: Event): int {
    if Below(b.id, a.id) then 1 else if Below(a.id, b.id) then -1 else 0
  }

  lemma {:induction false} BelowIsStrict(a: string, b: string)
    ensures !(Below(a, b) && Below(b, a))
  {
    if a != "" && b != "" && a[0] == b[0] {
      BelowIsStrict(a[1..], b[1..]);
    }
  }

  lemma {:induction false} BelowIsTotal(a: string, b: string)
    ensures Below(a, b) || Below(b, a) || a == b
  {
    if a != "" && b != "" && a[0] == b[0] {
      BelowIsTotal(a[1..], b[1..]);
      assert a == [a[0]] + a[1..] && b == [b[0]] + b[1..];
    }
  }

  lemma {:induction false} BelowIsTransitive(a: string, b: string, c: string)
    requires !Below(b, a) && !Below(c, b)
    ensures !Below(c, a)
  {
    if a != "" && b != "" && c != "" && a[0] == b[0] == c[0] {
      BelowIsTransitive(a[1..], b[1..], c[1..]);
    }
  }

  /** The texts agree on their first n characters, and there a ends or has the smaller character. */
  ghost predicate LessAt(a: string, b: string, n: nat) {
    n <= |a| && n < |b| && a[..n] == b[..n] && (n == |a| || a[n] < b[n])
  }

  lemma LessSharesHead(a: string, b: string, n: nat)
    ensures LessAt(a, b, n) && n > 0 ==> a != "" && b != "" && a[0] == b[0]
  {
    if LessAt(a, b, n) && n > 0 { assert a[..n][0] == b[..n][0]; }
  }

  /** The order is the lexicographic one by character. */
  lemma {:induction false} BelowIffLess(a: string, b: string)
    ensures Below(a, b) <==> exists n: nat :: LessAt(a, b, n)
  {
    if a == "" || b == "" || a[0] != b[0] {
      if b != "" && (a == "" || a[0] < b[0]) { assert LessAt(a, b, 0); }
      forall n: nat { LessSharesHead(a, b, n); }
    } else {
      BelowIffLess(a[1..], b[1..]);
      if n: nat :| LessAt(a[1..], b[1..], n) {
        assert a[..n + 1] == [a[0]] + a[1..][..n] && b[..n + 1] == [b[0]] + b[1..][..n];
        assert LessAt(a, b, n + 1);
      }
      if n: nat :| LessAt(a, b, n) {
        assert a[1..][..n - 1] == a[..n][1..] && b[1..][..n - 1] == b[..n][1..];
        assert LessAt(a[1..], b[1..], n - 1);
      }
    }
  }

  // ----- sorting -----

  ghost predicate Sorted(s: seq<Event>) {
    forall i, j :: 0 <= i < j < |s| ==> Compare(s[i], s[j]) <= 0
  }

  function InsertEvent(e: Event, s: seq<Event>): seq<Event> {
    if s == [] then [e]
    else if Compare(e, s[0]) <= 0 then [e] + s
    else [s[0]] + InsertEvent(e, s[1..])
  }

  /**
   The sorted copy of a list of events. `Array.prototype.sort` is a stable sort by the comparator,
   and StableSortIsUnique shows that this determines the result, so any stable algorithm will do.
   */
  function SortModelEvents(s: seq<Event>): seq<Event> {
    if s == [] then [] else InsertEvent(s[0], SortModelEvents(s[1..]))
  }

  /** The events carrying a given id, in order. */
  function WithId(s: seq<Event>, id: string): seq<Event> {
    if s == [] then []
    else if s[0].id == id then [s[0]] + WithId(s[1..], id)
    else WithId(s[1..], id)
  }

  lemma {:induction false} InsertKeepsMultiset(e: Event, s: seq<Event>)
    ensures multiset(InsertEvent(e, s)) == multiset(s) + multiset{e}
  {
    if s != [] {
      assert s == [s[0]] + s[1..];
      if Compare(e, s[0]) > 0 {
        InsertKeepsMultiset(e, s[1..]);
      }
    }
  }

  lemma {:induction false} InsertKeepsSorted(e: Event, s: seq<Event>)
    requires Sorted(s)
    ensures Sorted(InsertEvent(e, s))
  {
    if s == [] {
    } else if Compare(e, s[0]) <= 0 {
      forall j | 0 <= j < |s| ensures Compare(e, s[j]) <= 0 {
        BelowIsStrict(s[0].id, s[0].id);
        assert j > 0 ==> Compare(s[0], s[j]) <= 0;
        BelowIsTransitive(e.id, s[0].id, s[j].id);
      }
    } else {
      InsertKeepsSorted(e, s[1..]);
      var t := InsertEvent(e, s[1..]);
      BelowIsStrict(s[0].id, e.id);
      InsertKeepsMultiset(e, s[1..]);
      forall j | 0 <= j < |t| ensures Compare(s[0], t[j]) <= 0 {
        assert t[j] in multiset(t);
        assert t[j] == e || t[j] in s[1..];
      }
    }
  }

  /** The result is a sorted permutation of the input. */
  lemma {:induction false} SortIsSortedPermutation(s: seq<Event>)
    ensures Sorted(SortModelEvents(s))
    ensures multiset(SortModelEvents(s)) == multiset(s)
  {
    if s != [] {
      SortIsSortedPermutation(s[1..]);
      InsertKeepsSorted(s[0], SortModelEvents(s[1..]));
      InsertKeepsMultiset(s[0], SortModelEvents(s[1..]));
      assert s == [s[0]] + s[1..];
    }
  }

  /** No event comes before one whose id is smaller, in the lexicographic order. */
  ghost predicate Ascending(s: seq<Event>) {
    forall i, j, n: nat | 0 <= i < j < |s| :: !LessAt(s[j].id, s[i].id, n)
  }

  lemma SortedIffAscending(s: seq<Event>)
    ensures Sorted(s) <==> Ascending(s)
  {
    if Sorted(s) {
      forall i, j, n: nat | 0 <= i < j < |s| ensures !LessAt(s[j].id, s[i].id, n) {
        assert Compare(s[i], s[j]) <= 0;
        BelowIffLess(s[j].id, s[i].id);
      }
    }
    if Ascending(s) {
      forall i, j | 0 <= i < j < |s| ensures Compare(s[i], s[j]) <= 0 {
        BelowIffLess(s[j].id, s[i].id);
      }
    }
  }

  lemma {:induction false} InsertIsStable(e: Event, s: seq<Event>, id: string)
    requires Sorted(s)
    ensures WithId(InsertEvent(e, s), id) == WithId([e] + s, id)
  {
    assert ([e] + s)[1..] == s;
    if s != [] && Compare(e, s[0]) > 0 {
      InsertIsStable(e, s[1..], id);
      BelowIsStrict(s[0].id, e.id);
      var t := InsertEvent(e, s[1..]);
      assert ([s[0]] + t)[1..] == t;
      assert ([e] + s[1..])[1..] == s[1..];
      assert e.id != s[0].id;
    }
  }

  /** Events that compare equal keep their order. */
  lemma {:induction false} SortIsStable(s: seq<Event>, id: string)
    ensures WithId(SortModelEvents(s), id) == WithId(s, id)
  {
    if s != [] {
      SortIsStable(s[1..], id);
      SortIsSortedPermutation(s[1..]);
      var t := SortModelEvents(s[1..]);
      InsertIsStable(s[0], t, id);
      assert ([s[0]] + t)[1..] == t;
    }
  }

  lemma {:induction false} WithIdFinds(s: seq<Event>, i: nat)
    requires i < |s|
    ensures WithId(s, s[i].id) != []
  {
    if i > 0 {
      WithIdFinds(s[1..], i - 1);
    }
  }

  lemma {:induction false} WithIdMember(s: seq<Event>, id: string)
    requires WithId(s, id) != []
    ensures exists i :: 0 <= i < |s| && s[i].id == id
  {
    if s[0].id != id {
      WithIdMember(s[1..], id);
      var i :| 0 <= i < |s[1..]| && s[1..][i].id == id;
      assert s[i + 1].id == id;
    } else {
      assert s[0].id == id;
    }
  }

  lemma SortedHeadIsLeast(r: seq<Event>, t: seq<Event>)
    requires Sorted(r) && r != [] && t != []
    requires WithId(r, t[0].id) != []
    ensures !Below(t[0].id, r[0].id)
  {
    WithIdMember(r, t[0].id);
    var i :| 0 <= i < |r| && r[i].id == t[0].id;
    BelowIsStrict(t[0].id, t[0].id);
    assert i > 0 ==> Compare(r[0], r[i]) <= 0;
  }

  lemma {:induction false} SameClassesSameList(r: seq<Event>, t: seq<Event>)
    requires Sorted(r) && Sorted(t)
    requires forall id :: WithId(r, id) == WithId(t, id)
    ensures r == t
  {
    if r == [] {
      if t != [] {
        WithIdFinds(t, 0);
        assert false;
      }
    } else {
      WithIdFinds(r, 0);
      assert WithId(t, r[0].id) == WithId(r, r[0].id);
      WithIdFinds(t, 0);
      assert WithId(t, t[0].id) == WithId(r, t[0].id);
      SortedHeadIsLeast(r, t);
      SortedHeadIsLeast(t, r);
      BelowIsTotal(r[0].id, t[0].id);
      assert r[0] == WithId(r, r[0].id)[0] == WithId(t, r[0].id)[0] == t[0];
      forall id ensures WithId(r[1..], id) == WithId(t[1..], id) {
        assert WithId(r, id) == WithId(t, id);
        if r[0].id == id {
          assert WithId(r, id)[1..] == WithId(r[1..], id);
          assert WithId(t, id)[1..] == WithId(t[1..], id);
        }
      }
      SameClassesSameList(r[1..], t[1..]);
      assert r == [r[0]] + r[1..] && t == [t[0]] + t[1..];
    }
  }

  /** "Sorted and stable" leaves no freedom: whatever algorithm the engine uses, the list is this one. */
  lemma StableSortIsUnique(s: seq<Event>, r: seq<Event>)
    requires Sorted(r)
    requires forall id :: WithId(r, id) == WithId(s, id)
    ensures r == SortModelEvents(s)
  {
    SortIsSortedPermutation(s);
    forall id ensures WithId(r, id) == WithId(SortModelEvents(s), id) {
      SortIsStable(s, id);
    }
    SameClassesSameList(r, SortModelEvents(s));
  }

  // ----- canonicity -----

  lemma SortedHeadsAgree(r: seq<Event>, t: seq<Event>)
    requires Sorted(r) && Sorted(t) && r != [] && t != []
    requires r[0] in t && t[0] in r
    ensures r[0].id == t[0].id
  {
    var i :| 0 <= i < |r| && r[i] == t[0];
    var j :| 0 <= j < |t| && t[j] == r[0];
    BelowIsStrict(r[0].id, r[0].id);
    BelowIsStrict(t[0].id, t[0].id);
    BelowIsTotal(r[0].id, t[0].id);
    assert i > 0 ==> Compare(r[0], r[i]) <= 0;
    assert j > 0 ==> Compare(t[0], t[j]) <= 0;
  }

  lemma DistinctTail(r: seq<Event>)
    requires r != [] && Distinct(Ids(r))
    ensures Distinct(Ids(r[1..]))
  {
    forall a, b | 0 <= a < b < |r[1..]| ensures Ids(r[1..])[a] != Ids(r[1..])[b] {
      assert Ids(r)[a + 1] != Ids(r)[b + 1];
    }
  }

  lemma MultisetTail<T>(r: seq<T>)
    requires r != []
    ensures multiset(r) == multiset(r[1..]) + multiset{r[0]}
  {
    assert r == [r[0]] + r[1..];
  }

  lemma SortedTail(r: seq<Event>)
    requires Sorted(r) && r != []
    ensures Sorted(r[1..])
  {
    forall i, j | 0 <= i < j < |r[1..]| ensures Compare(r[1..][i], r[1..][j]) <= 0 {
      assert Compare(r[i + 1], r[j + 1]) <= 0;
    }
  }

  lemma SortedDistinctHeads(r: seq<Event>, t: seq<Event>)
    requires Sorted(r) && Sorted(t) && r != [] && t != []
    requires r[0] in t && t[0] in r && Distinct(Ids(r))
    ensures r[0] == t[0]
  {
    SortedHeadsAgree(r, t);
    if r[0] != t[0] {
      IdsTellApart(r, r[0], t[0]);
      assert false;
    }
  }

  lemma SameMultisetStep<T>(r: seq<T>, t: seq<T>)
    requires multiset(r) == multiset(t)
    ensures |r| == |t|
    ensures r != [] ==> r[0] in t && t[0] in r
    ensures r != [] && r[0] == t[0] ==> multiset(r[1..]) == multiset(t[1..])
  {
    assert |r| == |multiset(r)| == |multiset(t)| == |t|;
    if r != [] {
      assert r[0] in multiset(t) && t[0] in multiset(r);
      MultisetTail(r);
      MultisetTail(t);
      if r[0] == t[0] {
        assert multiset(r[1..]) == multiset(r) - multiset{r[0]} == multiset(t[1..]);
      }
    }
  }

  lemma {:induction false} SortedDistinctAreEqual(r: seq<Event>, t: seq<Event>)
    requires Sorted(r) && Sorted(t)
    requires multiset(r) == multiset(t)
    requires Distinct(Ids(r))
    ensures r == t
  {
    SameMultisetStep(r, t);
    if r != [] {
      SortedDistinctHeads(r, t);
      SortedTail(r);
      SortedTail(t);
      DistinctTail(r);
      SortedDistinctAreEqual(r[1..], t[1..]);
      assert r == [r[0]] + r[1..] && t == [t[0]] + t[1..];
    }
  }

  /** With distinct ids, the id tells the events of a list apart. */
  lemma IdsTellApart(a: seq<Event>, x: Event, y: Event)
    requires Distinct(Ids(a)) && x in a && y in a && x != y
    ensures x.id != y.id
  {
    var k :| 0 <= k < |a| && a[k] == x;
    var l :| 0 <= l < |a| && a[l] == y;
    if k < l {
      assert Ids(a)[k] != Ids(a)[l];
    } else {
      assert Ids(a)[l] != Ids(a)[k];
    }
  }

  lemma OnceInMultiset<T>(s: seq<T>, k: nat)
    requires k < |s| && Distinct(s)
    ensures multiset(s)[s[k]] == 1
  {
    assert s == s[..k] + [s[k]] + s[k + 1..];
    assert s[k] !in s[..k] && s[k] !in s[k + 1..];
    assert multiset(s) == multiset(s[..k]) + multiset{s[k]} + multiset(s[k + 1..]);
  }

  lemma OnceMeansApart<T>(s: seq<T>, i: nat, j: nat)
    requires i < j < |s| && multiset(s)[s[i]] <= 1
    ensures s[i] != s[j]
  {
    assert s == s[..j] + s[j..];
    assert s[i] in multiset(s[..j]) by { assert s[..j][i] == s[i]; }
    assert s[j] in multiset(s[j..]) by { assert s[j..][0] == s[j]; }
    assert multiset(s) == multiset(s[..j]) + multiset(s[j..]);
  }

  lemma DistinctIdsMeansDistinct(a: seq<Event>)
    requires Distinct(Ids(a))
    ensures Distinct(a)
  {
    forall i, j | 0 <= i < j < |a| ensures a[i] != a[j] {
      assert Ids(a)[i] != Ids(a)[j];
    }
  }

  lemma DistinctIdsPermute(a: seq<Event>, b: seq<Event>)
    requires multiset(a) == multiset(b)
    requires Distinct(Ids(a))
    ensures Distinct(Ids(b))
  {
    DistinctIdsMeansDistinct(a);
    forall i, j | 0 <= i < j < |b| ensures Ids(b)[i] != Ids(b)[j] {
      assert b[i] in multiset(a) && b[j] in multiset(a);
      var k :| 0 <= k < |a| && a[k] == b[i];
      OnceInMultiset(a, k);
      OnceMeansApart(b, i, j);
      IdsTellApart(a, b[i], b[j]);
    }
  }

  /**
   Sorting is canonical: with distinct ids, two lists sort to the same sequence exactly when they
   are permutations of each other.
   */
  lemma SortIsCanonical(a: seq<Event>, b: seq<Event>)
    requires Distinct(Ids(a))
    ensures SortModelEvents(a) == SortModelEvents(b) <==> multiset(a) == multiset(b)
  {
    SortIsSortedPermutation(a);
    SortIsSortedPermutation(b);
    if multiset(a) == multiset(b) {
      DistinctIdsPermute(a, SortModelEvents(a));
      SortedDistinctAreEqual(SortModelEvents(a), SortModelEvents(b));
    }
  }
}
