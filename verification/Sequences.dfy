// Facts about sequences that several proofs share.
module Sequences {

  lemma Reassociate<T>(a: seq<T>, b: seq<T>, c: seq<T>)
    ensures a + b + c == a + (b + c)
  {
  }

  lemma TakeNext<T>(s: seq<T>, i: nat)
    requires i < |s|
    ensures s[..i + 1] == s[..i] + [s[i]]
  {
  }

  lemma EmptyOrInhabited<T>(s: seq<T>)
    ensures s == [] || exists x :: x in s
  {
    if s != [] {
      assert s[0] in s;
    }
  }

  lemma OccursTwice<T>(s: seq<T>, i: nat, j: nat)
    requires i < j < |s| && s[i] == s[j]
    ensures multiset(s)[s[i]] >= 2
  {
    assert s == s[..i] + [s[i]] + s[i + 1..j] + [s[j]] + s[j + 1..];
  }

  lemma {:induction false} DistinctOccurOnce<T>(s: seq<T>, x: T)
    requires forall i, j :: 0 <= i < j < |s| ==> s[i] != s[j]
    ensures multiset(s)[x] <= 1
  {
    if s != [] {
      var n := |s| - 1;
      DistinctOccurOnce(s[..n], x);
      assert s == s[..n] + [s[n]];
      assert s[n] !in s[..n];
      assert x in s[..n] <==> x in multiset(s[..n]);
    }
  }

  // `positions` are those of the set flags, in order.
  ghost predicate SetFlags(flags: seq<bool>, positions: seq<int>)
  {
    && (forall k, l :: 0 <= k < l < |positions| ==> positions[k] < positions[l])
    && (forall k :: 0 <= k < |positions| ==> 0 <= positions[k] < |flags| && flags[positions[k]])
    && (forall j :: 0 <= j < |flags| && flags[j] ==> j in positions)
  }

  lemma NextPosition(flags: seq<bool>, positions: seq<int>, free: bool)
    requires SetFlags(flags, positions)
    ensures SetFlags(flags + [free], if free then positions + [|flags|] else positions)
  {
    var more, longer := if free then positions + [|flags|] else positions, flags + [free];
    assert forall k :: 0 <= k < |positions| ==> more[k] == positions[k];
    assert forall j :: 0 <= j < |flags| ==> longer[j] == flags[j];
    forall j | 0 <= j < |longer| && longer[j] ensures j in more {
      if j < |flags| {
        var k :| 0 <= k < |positions| && positions[k] == j;
        assert more[k] == j;
      } else {
        assert more[|positions|] == j;
      }
    }
  }

  ghost predicate OnlyFlag(flags: seq<bool>, i: int)
  {
    0 <= i < |flags| && forall j :: 0 <= j < |flags| ==> (flags[j] <==> j == i)
  }

  lemma AloneIsOnly(flags: seq<bool>, positions: seq<int>, i: int)
    requires SetFlags(flags, positions)
    ensures OnlyFlag(flags, i) <==> positions == [i]
  {
    assert |positions| > 1 ==> positions[0] < positions[1];
    assert |positions| > 0 ==> flags[positions[0]];
    if OnlyFlag(flags, i) {
      assert i in positions;
      assert forall k :: 0 <= k < |positions| ==> positions[k] == i;
    }
  }
}
