// internal/disk/fingerprint.go: choosing the authorized disk, fail-closed.
module Fingerprint {
  import opened Wrappers
  import opened Bytes
  import opened Sequences
  import Hex
  import Text
  import Wwn

  datatype Disk = Disk(
    path: string,
    kernelName: string,
    majorMinor: string,
    sizeBytes: nat,
    serial: string,
    wwn: string,
    driver: string)

  // Nothing but white space.
  predicate Blank(s: string)
  {
    forall i :: 0 <= i < |s| ==> s[i] in " \t\n\U{0B}\U{0C}\r"
  }

  lemma BlankIsTrimmedAway(s: string)
    ensures Text.TrimSpace(s) == "" <==> Blank(s)
  {
    Text.TrimmedAway(s);
  }

  predicate HasStableIdentity(d: Disk)
  {
    !Blank(d.wwn) || !Blank(d.serial)
  }

  // Two driver names are the same but for case and the white space around them.
  ghost predicate SameDriver(a: string, b: string)
  {
    exists text :: Wwn.Reads(a, text) && Wwn.Reads(b, text)
  }

  // The recorded identity: the name, or the serial, or the place of the disk.
  ghost predicate SamePlaceOrIdentity(expected: Disk, candidate: Disk)
  {
    if !Blank(expected.wwn) then !Blank(candidate.wwn) && Wwn.SameIdentity(expected.wwn, candidate.wwn)
    else if !Blank(expected.serial) then !Blank(candidate.serial) && Wwn.SameIdentity(expected.serial, candidate.serial)
    else
      && expected.kernelName == candidate.kernelName != "" && expected.majorMinor == candidate.majorMinor != ""
      && expected.driver != ""
  }

  ghost predicate FingerprintsMatch(expected: Disk, candidate: Disk)
  {
    && expected.sizeBytes == candidate.sizeBytes > 0
    && SamePlaceOrIdentity(expected, candidate)
    && (Blank(expected.driver) || (!Blank(candidate.driver) && SameDriver(expected.driver, candidate.driver)))
  }

  predicate EqualFold(a: string, b: string)
  {
    Hex.Lower(a) == Hex.Lower(b)
  }

  lemma SameDriverExactly(a: string, b: string)
    ensures EqualFold(Text.TrimSpace(a), Text.TrimSpace(b)) <==> SameDriver(a, b)
  {
    Wwn.ReadsExactly(a, Hex.Lower(Text.TrimSpace(a)));
    Wwn.ReadsExactly(b, Hex.Lower(Text.TrimSpace(a)));
    if SameDriver(a, b) {
      var text :| Wwn.Reads(a, text) && Wwn.Reads(b, text);
      Wwn.ReadsExactly(a, text);
      Wwn.ReadsExactly(b, text);
    }
  }

  // The middle part of FingerprintsMatch.
  method MatchIdentity(expected: Disk, candidate: Disk) returns (ok: bool)
    ensures ok <==> SamePlaceOrIdentity(expected, candidate)
  {
    BlankIsTrimmedAway(expected.wwn);
    BlankIsTrimmedAway(candidate.wwn);
    BlankIsTrimmedAway(expected.serial);
    BlankIsTrimmedAway(candidate.serial);
    if Text.TrimSpace(expected.wwn) != "" {
      Wwn.NormalizedExactly(expected.wwn, candidate.wwn);
      if Text.TrimSpace(candidate.wwn) == "" || Wwn.NormalizeIdentity(expected.wwn) != Wwn.NormalizeIdentity(candidate.wwn) {
        return false;
      }
    } else if Text.TrimSpace(expected.serial) != "" {
      Wwn.NormalizedExactly(expected.serial, candidate.serial);
      if Text.TrimSpace(candidate.serial) == "" || Wwn.NormalizeIdentity(expected.serial) != Wwn.NormalizeIdentity(candidate.serial) {
        return false;
      }
    } else {
      if expected.kernelName == "" || expected.majorMinor == "" || expected.driver == "" {
        return false;
      }
      if expected.kernelName != candidate.kernelName || expected.majorMinor != candidate.majorMinor {
        return false;
      }
    }
    ok := true;
  }

  method MatchFingerprints(expected: Disk, candidate: Disk) returns (ok: bool)
    ensures ok <==> FingerprintsMatch(expected, candidate)
  {
    if expected.sizeBytes == 0 || expected.sizeBytes != candidate.sizeBytes {
      return false;
    }
    ok := MatchIdentity(expected, candidate);
    if !ok {
      return;
    }
    BlankIsTrimmedAway(expected.driver);
    BlankIsTrimmedAway(candidate.driver);
    if Text.TrimSpace(expected.driver) != "" {
      SameDriverExactly(expected.driver, candidate.driver);
      return Text.TrimSpace(candidate.driver) != "" &&
        EqualFold(Text.TrimSpace(expected.driver), Text.TrimSpace(candidate.driver));
    }
  }

  // `chosen` is the one candidate that matches and, when the expected disk has
  // no stable identity, the one candidate there is.
  ghost predicate Authorizes(expected: Disk, candidates: seq<Disk>, chosen: Disk)
  {
    && (HasStableIdentity(expected) || |candidates| == 1)
    && exists i :: 0 <= i < |candidates| && candidates[i] == chosen && OnlyMatch(expected, candidates, i)
  }

  ghost predicate OnlyMatch(expected: Disk, candidates: seq<Disk>, i: int)
    requires 0 <= i < |candidates|
  {
    forall j :: 0 <= j < |candidates| ==> (FingerprintsMatch(expected, candidates[j]) <==> j == i)
  }

  // Which of the candidates match.
  ghost function Flags(expected: Disk, candidates: seq<Disk>): (r: seq<bool>)
    ensures |r| == |candidates|
  {
    seq(|candidates|, i requires 0 <= i < |candidates| => FingerprintsMatch(expected, candidates[i]))
  }

  lemma OnlyMatchIsFlagged(expected: Disk, candidates: seq<Disk>, i: int)
    requires 0 <= i < |candidates|
    ensures OnlyMatch(expected, candidates, i) <==> OnlyFlag(Flags(expected, candidates), i)
  {
    forall j | 0 <= j < |candidates| ensures Flags(expected, candidates)[j] <==> FingerprintsMatch(expected, candidates[j]) {
      FlagTells(expected, candidates, j);
    }
  }

  lemma FlagTells(expected: Disk, candidates: seq<Disk>, j: int)
    requires 0 <= j < |candidates|
    ensures Flags(expected, candidates)[j] <==> FingerprintsMatch(expected, candidates[j])
  {
  }

  // `matches` are the candidates at `positions`.
  ghost predicate Picks(candidates: seq<Disk>, matches: seq<Disk>, positions: seq<int>)
  {
    |matches| == |positions| &&
    forall k :: 0 <= k < |positions| ==> 0 <= positions[k] < |candidates| && matches[k] == candidates[positions[k]]
  }

  lemma NextPick(candidates: seq<Disk>, matches: seq<Disk>, positions: seq<int>, i: int)
    requires Picks(candidates, matches, positions) && 0 <= i < |candidates|
    ensures Picks(candidates, matches + [candidates[i]], positions + [i])
  {
  }

  // The loop over the candidates.
  method CollectMatches(expected: Disk, candidates: seq<Disk>) returns (matches: seq<Disk>, ghost positions: seq<int>)
    ensures Picks(candidates, matches, positions)
    ensures SetFlags(Flags(expected, candidates), positions)
  {
    matches, positions := [], [];
    ghost var flags := Flags(expected, candidates);
    for i := 0 to |candidates|
      invariant Picks(candidates, matches, positions) && SetFlags(flags[..i], positions)
    {
      var ok := MatchFingerprints(expected, candidates[i]);
      FlagTells(expected, candidates, i);
      NextPosition(flags[..i], positions, ok);
      TakeNext(flags, i);
      if ok {
        NextPick(candidates, matches, positions, i);
        matches, positions := matches + [candidates[i]], positions + [i];
      }
    }
    assert flags[..|candidates|] == flags;
  }

  method SelectAuthorizedFingerprint(expected: Disk, candidates: seq<Disk>) returns (r: Option<Disk>)
    ensures r.Some? ==> Authorizes(expected, candidates, r.value)
    ensures r.None? ==> forall d :: !Authorizes(expected, candidates, d)
  {
    BlankIsTrimmedAway(expected.wwn);
    BlankIsTrimmedAway(expected.serial);
    if Text.TrimSpace(expected.wwn) == "" && Text.TrimSpace(expected.serial) == "" && |candidates| != 1 {
      return None;
    }
    var matches, positions := CollectMatches(expected, candidates);
    forall i | 0 <= i < |candidates| ensures OnlyMatch(expected, candidates, i) <==> positions == [i] {
      OnlyMatchIsFlagged(expected, candidates, i);
      AloneIsOnly(Flags(expected, candidates), positions, i);
    }
    if |matches| != 1 {
      return None;
    }
    assert positions == [positions[0]];
    r := Some(matches[0]);
  }

  // Authorization in terms of how often things occur.
  lemma AuthorizesByCount(expected: Disk, candidates: seq<Disk>, chosen: Disk)
    ensures Authorizes(expected, candidates, chosen) <==>
              && (HasStableIdentity(expected) || |candidates| == 1)
              && FingerprintsMatch(expected, chosen)
              && multiset(candidates)[chosen] == 1
              && forall d :: d in candidates && FingerprintsMatch(expected, d) ==> d == chosen
  {
    if chosen in candidates {
      var i :| 0 <= i < |candidates| && candidates[i] == chosen;
      CountOne(candidates, i);
      assert Authorizes(expected, candidates, chosen) ==> OnlyMatch(expected, candidates, i);
    }
  }

  lemma CountOne(s: seq<Disk>, i: nat)
    requires i < |s|
    ensures multiset(s)[s[i]] == 1 <==> forall j :: 0 <= j < |s| && s[j] == s[i] ==> j == i
  {
    var before, after := s[..i], s[i + 1..];
    assert s == before + [s[i]] + after;
    assert multiset(s)[s[i]] == 1 + multiset(before)[s[i]] + multiset(after)[s[i]];
    if multiset(s)[s[i]] == 1 {
      assert s[i] !in before && s[i] !in after;
      forall j | 0 <= j < |s| && j != i ensures s[j] != s[i] {
        if j < i {
          assert before[j] == s[j];
        } else {
          assert after[j - i - 1] == s[j];
        }
      }
    } else {
      assert s[i] in before || s[i] in after;
      if s[i] in before {
        var j :| 0 <= j < |before| && before[j] == s[i];
        assert s[j] == s[i];
      } else {
        var j :| 0 <= j < |after| && after[j] == s[i];
        assert s[i + 1 + j] == s[i];
      }
    }
  }

  // At most one disk is ever authorized.
  lemma OneAtMost(expected: Disk, candidates: seq<Disk>, a: Disk, b: Disk)
    requires Authorizes(expected, candidates, a) && Authorizes(expected, candidates, b)
    ensures a == b
  {
    AuthorizesByCount(expected, candidates, a);
    AuthorizesByCount(expected, candidates, b);
    assert b in multiset(candidates);
  }

  // The order in which disks are enumerated does not matter.
  lemma OrderDoesNotMatter(expected: Disk, candidates: seq<Disk>, others: seq<Disk>, chosen: Disk)
    requires multiset(candidates) == multiset(others)
    ensures Authorizes(expected, candidates, chosen) <==> Authorizes(expected, others, chosen)
  {
    AuthorizesByCount(expected, candidates, chosen);
    AuthorizesByCount(expected, others, chosen);
    assert |multiset(candidates)| == |multiset(others)|;
    assert forall d :: d in candidates <==> d in multiset(candidates);
    assert forall d :: d in others <==> d in multiset(others);
  }

  // More disks may block the choice; they never move it to another disk.
  lemma AddedDisksNeverRedirect(expected: Disk, candidates: seq<Disk>, added: seq<Disk>, before: Disk, after: Disk)
    requires Authorizes(expected, candidates, before)
    requires Authorizes(expected, candidates + added, after)
    ensures before == after
    ensures forall d :: d in added ==> !FingerprintsMatch(expected, d)
  {
    var i :| 0 <= i < |candidates| && candidates[i] == before && OnlyMatch(expected, candidates, i);
    var all := candidates + added;
    var j :| 0 <= j < |all| && all[j] == after && OnlyMatch(expected, all, j);
    assert all[i] == before;
    forall d | d in added ensures !FingerprintsMatch(expected, d) {
      var k :| 0 <= k < |added| && added[k] == d;
      assert all[|candidates| + k] == d;
    }
  }

  // A recorded identity is never traded for the kernel-name fallback, and the
  // fallback works only alone.
  lemma IdentityIsNeverDropped(expected: Disk, candidates: seq<Disk>, chosen: Disk)
    requires Authorizes(expected, candidates, chosen)
    ensures chosen in candidates && chosen.sizeBytes == expected.sizeBytes > 0
    ensures !Blank(expected.wwn) ==> !Blank(chosen.wwn) && Wwn.SameIdentity(expected.wwn, chosen.wwn)
    ensures !Blank(expected.wwn) ==> Wwn.NormalizeIdentity(chosen.wwn) == Wwn.NormalizeIdentity(expected.wwn)
    ensures Blank(expected.wwn) && !Blank(expected.serial) ==>
              !Blank(chosen.serial) && Wwn.SameIdentity(expected.serial, chosen.serial)
    ensures Blank(expected.wwn) && !Blank(expected.serial) ==>
              Wwn.NormalizeIdentity(chosen.serial) == Wwn.NormalizeIdentity(expected.serial)
    ensures !Blank(expected.driver) ==> SameDriver(expected.driver, chosen.driver)
    ensures !HasStableIdentity(expected) ==>
              candidates == [chosen] && chosen.kernelName == expected.kernelName != "" && chosen.majorMinor == expected.majorMinor != ""
  {
    var i :| 0 <= i < |candidates| && candidates[i] == chosen && OnlyMatch(expected, candidates, i);
    assert FingerprintsMatch(expected, chosen);
    Wwn.NormalizedExactly(expected.wwn, chosen.wwn);
    Wwn.NormalizedExactly(expected.serial, chosen.serial);
  }

  // With names read off the hardware on both sides, only a disk carrying the
  // very same identifier bytes is authorized.
  lemma AuthorizedDiskCarriesTheBytes(expected: Disk, candidates: seq<Disk>, chosen: Disk, recorded: bytes, observed: bytes)
    requires Authorizes(expected, candidates, chosen)
    requires Wwn.Carries(expected.wwn, recorded) && Wwn.Carries(chosen.wwn, observed)
    ensures recorded == observed
  {
    IdentityIsNeverDropped(expected, candidates, chosen);
    var prefix :| Wwn.IsPrefix(prefix) && expected.wwn == prefix + Hex.Encode(recorded);
    Wwn.CanonicalText(prefix, recorded);
    BlankIsTrimmedAway(expected.wwn);
    Wwn.EqualExactlyOnBytes(expected.wwn, chosen.wwn, recorded, observed);
  }
}
