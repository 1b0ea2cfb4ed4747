// sort.SliceStable by an integer key.
module StableSort {

  datatype Keyed<T> = Keyed(key: int, value: T)

  ghost predicate Ordered<T>(s: seq<Keyed<T>>)
  {
    forall i, j :: 0 <= i < j < |s| ==> s[i].key <= s[j].key
  }

  function Insert<T>(x: Keyed<T>, s: seq<Keyed<T>>): (r: seq<Keyed<T>>)
    requires Ordered(s)
    ensures Ordered(r) && |r| == |s| + 1
    ensures multiset(r) == multiset(s) + multiset{x}
  {
    if s == [] then [x]
    else if x.key <= s[0].key then [x] + s
    else
      var rest := Insert(x, s[1..]);
      LeastFirst(s[0], x, s, rest);
      [s[0]] + rest
  }

  lemma LeastFirst<T>(least: Keyed<T>, x: Keyed<T>, s: seq<Keyed<T>>, rest: seq<Keyed<T>>)
    requires s != [] && s[0] == least && Ordered(s) && least.key <= x.key && Ordered(rest)
    requires multiset(rest) == multiset(s[1..]) + multiset{x}
    ensures Ordered([least] + rest)
    ensures multiset([least] + rest) == multiset(s) + multiset{x}
  {
    assert s == [s[0]] + s[1..];
    forall j | 0 <= j < |rest| ensures least.key <= rest[j].key {
      assert rest[j] in multiset(rest);
      assert rest[j] == x || rest[j] in s[1..];
    }
  }

  function Sort<T>(s: seq<Keyed<T>>): (r: seq<Keyed<T>>)
    ensures Ordered(r) && |r| == |s|
    ensures multiset(r) == multiset(s)
  {
    if s == [] then []
    else
      assert s == [s[0]] + s[1..];
      Insert(s[0], Sort(s[1..]))
  }

  lemma SortKeepsMembers<T>(s: seq<Keyed<T>>, x: Keyed<T>)
    ensures x in Sort(s) <==> x in s
  {
    assert x in Sort(s) <==> x in multiset(Sort(s));
  }

  // The position of the earliest element of least key.
  ghost predicate EarliestLeast<T>(s: seq<Keyed<T>>, i: int)
  {
    && 0 <= i < |s|
    && (forall j :: 0 <= j < |s| ==> s[i].key <= s[j].key)
    && (forall j :: 0 <= j < i ==> s[i].key < s[j].key)
  }

  lemma LeastExists<T>(s: seq<Keyed<T>>) returns (k: int)
    requires s != []
    ensures EarliestLeast(s, k)
  {
    k := 0;
    for i := 1 to |s|
      invariant 0 <= k < i
      invariant forall j :: 0 <= j < i ==> s[k].key <= s[j].key
      invariant forall j :: 0 <= j < k ==> s[k].key < s[j].key
    {
      if s[i].key < s[k].key {
        k := i;
      }
    }
  }

  // What stability means for the first element.
  lemma {:induction false} SortPutsEarliestLeastFirst<T>(s: seq<Keyed<T>>, i: int)
    requires EarliestLeast(s, i)
    ensures Sort(s)[0] == s[i]
  {
    var tail := s[1..];
    var rest := Sort(tail);
    if i > 0 {
      assert tail[i - 1] == s[i];
      assert forall j :: 0 <= j < |tail| ==> tail[j] == s[j + 1];
      SortPutsEarliestLeastFirst(tail, i - 1);
      assert s[0].key > s[i].key;
    } else if rest != [] {
      assert rest[0] in multiset(tail) by {
        assert rest[0] in multiset(rest);
      }
      var k :| 0 <= k < |tail| && tail[k] == rest[0];
      assert s[k + 1] == rest[0];
    }
  }
}
