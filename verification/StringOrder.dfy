// The order of Go strings, and sorting by it.
module StringOrder {
  import opened Sequences

  // From position `i` on, `a` is not after `b`.
  predicate LeFrom(a: string, b: string, i: nat)
    decreases |a| - i
  {
    i >= |a| || (i < |b| && (a[i] < b[i] || (a[i] == b[i] && LeFrom(a, b, i + 1))))
  }

  predicate Le(a: string, b: string)
  {
    LeFrom(a, b, 0)
  }

  lemma {:induction false} LeFromTotal(a: string, b: string, i: nat)
    ensures LeFrom(a, b, i) || LeFrom(b, a, i)
    decreases |a| - i
  {
    if i < |a| && i < |b| && a[i] == b[i] {
      LeFromTotal(a, b, i + 1);
    }
  }

  lemma {:induction false} LeFromAntisymmetric(a: string, b: string, i: nat)
    requires LeFrom(a, b, i) && LeFrom(b, a, i)
    requires i <= |a| && i <= |b| && a[..i] == b[..i]
    ensures a == b
    decreases |a| - i
  {
    if i < |a| {
      assert a[..i + 1] == a[..i] + [a[i]] && b[..i + 1] == b[..i] + [b[i]];
      LeFromAntisymmetric(a, b, i + 1);
    }
  }

  lemma {:induction false} LeFromTransitive(a: string, b: string, c: string, i: nat)
    requires LeFrom(a, b, i) && LeFrom(b, c, i)
    ensures LeFrom(a, c, i)
    decreases |a| - i
  {
    if i < |a| && a[i] == b[i] && b[i] == c[i] {
      LeFromTransitive(a, b, c, i + 1);
    }
  }

  ghost predicate Sorted(s: seq<string>)
  {
    forall i, j :: 0 <= i < j < |s| ==> Le(s[i], s[j])
  }

  function Insert(x: string, s: seq<string>): seq<string>
  {
    if s == [] || Le(x, s[0]) then [x] + s else [s[0]] + Insert(x, s[1..])
  }

  // sort.Strings: the sorted arrangement of the elements.
  function Sort(s: seq<string>): seq<string>
  {
    if s == [] then [] else Insert(s[0], Sort(s[1..]))
  }

  lemma FirstIsLeast(s: seq<string>, x: string)
    requires Sorted(s) && x in multiset(s)
    ensures s != [] && Le(s[0], x)
  {
    var i :| 0 <= i < |s| && s[i] == x;
    LeFromTotal(x, x, 0);
  }

  lemma TailSorted(s: seq<string>)
    requires Sorted(s) && s != []
    ensures Sorted(s[1..])
  {
  }

  // Something not after any element goes in front.
  lemma LeastInFront(x: string, s: seq<string>)
    requires Sorted(s) && forall y :: y in multiset(s) ==> Le(x, y)
    ensures Sorted([x] + s)
  {
    var r := [x] + s;
    forall i, j | 0 <= i < j < |r| ensures Le(r[i], r[j]) {
      if i == 0 {
        assert s[j - 1] in multiset(s);
      }
    }
  }

  lemma InsertMembers(x: string, s: seq<string>)
    ensures multiset(Insert(x, s)) == multiset(s) + multiset{x}
  {
    if s != [] && !Le(x, s[0]) {
      InsertMembers(x, s[1..]);
      assert s == [s[0]] + s[1..];
    }
  }

  lemma {:induction false} InsertSorts(x: string, s: seq<string>)
    requires Sorted(s)
    ensures Sorted(Insert(x, s))
  {
    if s == [] {
    } else if Le(x, s[0]) {
      forall y | y in multiset(s) ensures Le(x, y) {
        FirstIsLeast(s, y);
        LeFromTransitive(x, s[0], y, 0);
      }
      LeastInFront(x, s);
    } else {
      TailSorted(s);
      InsertSorts(x, s[1..]);
      InsertMembers(x, s[1..]);
      forall y | y in multiset(Insert(x, s[1..])) ensures Le(s[0], y) {
        LeFromTotal(x, s[0], 0);
        if y != x {
          assert s == [s[0]] + s[1..];
          FirstIsLeast(s, y);
        }
      }
      LeastInFront(s[0], Insert(x, s[1..]));
    }
  }

  lemma {:induction false} SortSorts(s: seq<string>)
    ensures Sorted(Sort(s)) && multiset(Sort(s)) == multiset(s)
  {
    if s != [] {
      SortSorts(s[1..]);
      InsertSorts(s[0], Sort(s[1..]));
      InsertMembers(s[0], Sort(s[1..]));
      assert s == [s[0]] + s[1..];
    }
  }

  lemma SortKeepsMembers(s: seq<string>)
    ensures |Sort(s)| == |s|
    ensures forall x :: x in Sort(s) <==> x in s
  {
    SortSorts(s);
    assert |multiset(Sort(s))| == |multiset(s)|;
    assert forall x :: x in Sort(s) <==> x in multiset(Sort(s));
  }

  lemma SameFirst(a: seq<string>, b: seq<string>)
    requires Sorted(a) && Sorted(b) && multiset(a) == multiset(b) && a != [] && b != []
    ensures a[0] == b[0]
  {
    assert a[0] in multiset(b) && b[0] in multiset(a);
    FirstIsLeast(a, b[0]);
    FirstIsLeast(b, a[0]);
    LeFromAntisymmetric(a[0], b[0], 0);
  }

  lemma SameRest<T>(a: seq<T>, b: seq<T>)
    requires a != [] && b != [] && a[0] == b[0] && multiset(a) == multiset(b)
    ensures multiset(a[1..]) == multiset(b[1..])
  {
    assert a == [a[0]] + a[1..] && b == [b[0]] + b[1..];
    assert multiset(a[1..]) == multiset(a) - multiset{a[0]};
    assert multiset(b[1..]) == multiset(b) - multiset{b[0]};
  }

  // Two sorted arrangements of the same elements are the same sequence.
  lemma {:induction false} SortedUnique(a: seq<string>, b: seq<string>)
    requires Sorted(a) && Sorted(b)
    requires multiset(a) == multiset(b)
    ensures a == b
  {
    assert |multiset(a)| == |multiset(b)|;
    if a != [] {
      SameFirst(a, b);
      SameRest(a, b);
      TailSorted(a);
      TailSorted(b);
      SortedUnique(a[1..], b[1..]);
      assert a == [a[0]] + a[1..] && b == [b[0]] + b[1..];
    }
  }

  // Sorting forgets the order it was given.
  lemma SortCanonical(a: seq<string>, b: seq<string>)
    requires multiset(a) == multiset(b)
    ensures Sort(a) == Sort(b)
  {
    SortSorts(a);
    SortSorts(b);
    SortedUnique(Sort(a), Sort(b));
  }

  // The keys of a map, collected in any order and then sorted.
  method SortedKeys(keys: set<string>) returns (r: seq<string>)
    ensures Sorted(r)
    ensures forall i, j :: 0 <= i < j < |r| ==> r[i] != r[j]
    ensures forall k :: k in r <==> k in keys
  {
    var rest, collected := keys, [];
    while rest != {}
      invariant rest <= keys
      invariant forall k :: k in multiset(collected) <==> k in keys - rest
      invariant forall k :: multiset(collected)[k] <= 1
      decreases rest
    {
      var k :| k in rest;
      rest, collected := rest - {k}, collected + [k];
    }
    SortSorts(collected);
    r := Sort(collected);
    forall i, j | 0 <= i < j < |r| ensures r[i] != r[j] {
      if r[i] == r[j] {
        OccursTwice(r, i, j);
        assert false;
      }
    }
    forall k ensures k in r <==> k in keys {
      assert k in r <==> k in multiset(r);
    }
  }
}
