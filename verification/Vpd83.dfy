// internal/disk/fingerprint.go: the SCSI device identification page 0x83
// (section 7.6.3 of SPC-3).
module Vpd83 {
  import opened Wrappers
  import opened Bytes
  import opened Sequences
  import opened Hex
  import opened StableSort
  import Wwn

  datatype Identity = Identity(serial: string, wwn: string, rank: int)

  const BINARY := 1
  const ASCII := 2
  const VENDOR := 0
  const T10 := 1
  const EUI64 := 2
  const NAA_TYPE := 3

  // ----- descriptors -----

  // descriptorHex: the identifier bytes; the NAA type is their first nibble.
  function DescriptorBytes(payload: bytes, codeSet: int): Option<bytes>
  {
    var value :=
      if codeSet == BINARY then Some(payload)
      else
        match TextIdentifier(payload)
        case None => None
        case Some(text) =>
          var lower := StripPrefix(StripPrefix(StripPrefix(Lower(text), Wwn.NAA), Wwn.EUI), Wwn.OX);
          Decode(Without(lower, {'-', ':', ' '}));
    if value == None || value.value == [] || AllZero(value.value) then None else value
  }

  function WwnRank(idType: int, codeSet: int, naaType: int): int
  {
    (if idType == EUI64 then 6 else if naaType == 6 then 0 else if naaType == 5 then 2 else 4) +
    (if codeSet == ASCII then 1 else 0)
  }

  function DescriptorIdentity(descriptor: bytes): Option<Identity>
  {
    if |descriptor| < 5 || descriptor[3] as int + 4 != |descriptor| then None
    else
      var codeSet, idType, payload := descriptor[0] as int % 16, descriptor[1] as int % 16, descriptor[4..];
      if codeSet != BINARY && codeSet != ASCII then None
      else if idType > NAA_TYPE then None
      else if idType == NAA_TYPE || idType == EUI64 then
        match DescriptorBytes(payload, codeSet)
        case None => None
        case Some(id) =>
          var prefix := if idType == EUI64 then Wwn.EUI else Wwn.NAA;
          Some(Identity("", prefix + Encode(id), WwnRank(idType, codeSet, id[0] as int / 16)))
      else
        var base := if idType == VENDOR then 10 else 8;
        var kind := if idType == VENDOR then "vendor" else "t10";
        if codeSet == ASCII then
          match TextIdentifier(payload)
          case None => None
          case Some(text) => Some(Identity(text, "", base + 1))
        else if AllZero(payload) then None
        else Some(Identity("vpd83-" + kind + "-" + Encode(payload), "", base))
  }

  // The names read off descriptors carry bytes.
  lemma DescriptorCarries(descriptor: bytes)
    ensures var i := DescriptorIdentity(descriptor);
      i.Some? && i.value.wwn != "" ==> exists id :: Wwn.Carries(i.value.wwn, id)
  {
    var i := DescriptorIdentity(descriptor);
    if i.Some? && i.value.wwn != "" {
      var codeSet, idType := descriptor[0] as int % 16, descriptor[1] as int % 16;
      var id := DescriptorBytes(descriptor[4..], codeSet).value;
      assert i.value.wwn == (if idType == EUI64 then Wwn.EUI else Wwn.NAA) + Encode(id);
      assert Wwn.Carries(i.value.wwn, id);
    }
  }

  // ----- what a descriptor yields, field by field -----

  // Up to three prefixes of a name may precede its digits.
  ghost predicate NameText(text: string, id: bytes)
  {
    exists p: string, q: string, r: string, digits: string ::
      && (p == "" || p == "naa.") && (q == "" || q == "eui.") && (r == "" || r == "0x")
      && Lower(text) == p + (q + (r + digits)) && Spells(digits, Nibbles(id))
  }

  function Bare(text: string): string
  {
    StripPrefix(StripPrefix(StripPrefix(Lower(text), Wwn.NAA), Wwn.EUI), Wwn.OX)
  }

  lemma NameTextExactly(text: string, id: bytes)
    ensures Decode(Without(Bare(text), {'-', ':', ' '})) == Some(id) <==> NameText(text, id)
  {
    DecodesExactly(Bare(text), id);
    if Spells(Bare(text), Nibbles(id)) {
      var p := StripSplits(Lower(text), Wwn.NAA);
      var q := StripSplits(StripPrefix(Lower(text), Wwn.NAA), Wwn.EUI);
      var r := StripSplits(StripPrefix(StripPrefix(Lower(text), Wwn.NAA), Wwn.EUI), Wwn.OX);
      assert Lower(text) == p + (q + (r + Bare(text)));
    }
    if NameText(text, id) {
      var p: string, q: string, r: string, digits: string :|
        && (p == "" || p == "naa.") && (q == "" || q == "eui.") && (r == "" || r == "0x")
        && Lower(text) == p + (q + (r + digits)) && Spells(digits, Nibbles(id));
      SpelledIsBare(digits, Nibbles(id));
      PrefixesApart(q, r, digits);
      StripOnce(p, Wwn.NAA, q + (r + digits));
      StripOnce(q, Wwn.EUI, r + digits);
      StripOnce(r, Wwn.OX, digits);
    }
  }

  lemma PrefixesApart(q: string, r: string, digits: string)
    requires (q == "" || q == "eui.") && (r == "" || r == "0x")
    requires !("naa." <= digits) && !("eui." <= digits) && !("0x" <= digits)
    ensures !("naa." <= q + (r + digits)) && !("eui." <= r + digits)
  {
    var rest := r + digits;
    if r == "" {
      assert rest == digits;
    } else {
      assert rest[0] == '0';
    }
    if q == "" {
      assert q + rest == rest;
    } else {
      assert (q + rest)[0] == 'e';
    }
  }

  // The identifier bytes of a binary or an ASCII payload.
  ghost predicate HoldsName(payload: bytes, codeSet: int, id: bytes)
  {
    && id != [] && (exists i :: 0 <= i < |id| && id[i] != 0)
    && (if codeSet == 1 then id == payload else exists text :: HoldsText(payload, text) && NameText(text, id))
  }

  lemma HoldsNameExactly(payload: bytes, codeSet: int, id: bytes)
    requires codeSet == 1 || codeSet == 2
    ensures DescriptorBytes(payload, codeSet) == Some(id) <==> HoldsName(payload, codeSet, id)
  {
    if codeSet == 2 {
      if TextIdentifier(payload).Some? {
        var text := TextIdentifier(payload).value;
        TextExactly(payload, text);
        NameTextExactly(text, id);
      }
      if HoldsName(payload, codeSet, id) {
        var text :| HoldsText(payload, text) && NameText(text, id);
        TextExactly(payload, text);
      }
    }
  }

  // What a descriptor of the logical unit (association 0) yields. Names come
  // before serials: NAA 6, NAA 5, other NAA, EUI-64, then T10, then vendor; in
  // each of these binary comes before ASCII.
  ghost predicate Yields(d: Descriptor, i: Identity)
  {
    var codeSet, idType := d.b0 as int % 16, d.b1 as int % 16;
    && (d.b1 as int / 16) % 4 == 0 && 0 < |d.payload| < 256
    && (codeSet == 1 || codeSet == 2)
    && (match idType
        case 3 => exists id :: HoldsName(d.payload, codeSet, id) && i == Identity("", "naa." + Encode(id), NaaOrder(id) + codeSet - 1)
        case 2 => exists id :: HoldsName(d.payload, codeSet, id) && i == Identity("", "eui." + Encode(id), 6 + codeSet - 1)
        case 1 => SerialOf(d.payload, codeSet, "t10", i.serial) && i.wwn == "" && i.rank == 8 + codeSet - 1
        case 0 => SerialOf(d.payload, codeSet, "vendor", i.serial) && i.wwn == "" && i.rank == 10 + codeSet - 1
        case _ => false)
  }

  // The NAA type is the first half byte of the name.
  function NaaOrder(id: bytes): int
    requires id != []
  {
    if id[0] / 16 == 6 then 0 else if id[0] / 16 == 5 then 2 else 4
  }

  ghost predicate SerialOf(payload: bytes, codeSet: int, kind: string, serial: string)
  {
    if codeSet == 1 then (exists i :: 0 <= i < |payload| && payload[i] != 0) && serial == "vpd83-" + kind + "-" + Encode(payload)
    else HoldsText(payload, serial)
  }

  lemma ContributionExactly(d: Descriptor, i: Identity)
    ensures Contribution(d) == Some(i) <==> Yields(d, i)
  {
    if Fits(d) && d.payload != [] && (d.b1 as int / 16) % 4 == 0 {
      var wire := Wire(d);
      assert wire[0] == d.b0 && wire[1] == d.b1 && wire[3] == |d.payload| && wire[4..] == d.payload;
      var codeSet, idType := d.b0 as int % 16, d.b1 as int % 16;
      if codeSet == 1 || codeSet == 2 {
        if idType == 2 || idType == 3 {
          NameYields(d, i);
        } else if idType < 2 {
          SerialExactly(d.payload, codeSet, i.serial, if idType == 0 then "vendor" else "t10");
          if codeSet == 2 && TextIdentifier(d.payload).Some? {
            TextExactly(d.payload, TextIdentifier(d.payload).value);
          }
        }
      }
    }
  }

  lemma NameYields(d: Descriptor, i: Identity)
    requires Fits(d) && d.payload != [] && (d.b1 as int / 16) % 4 == 0
    requires d.b0 as int % 16 in {1, 2} && d.b1 as int % 16 in {2, 3}
    requires Wire(d)[4..] == d.payload
    ensures DescriptorIdentity(Wire(d)) == Some(i) <==> Yields(d, i)
  {
    var codeSet := d.b0 as int % 16;
    var value := DescriptorBytes(d.payload, codeSet);
    forall id ensures value == Some(id) <==> HoldsName(d.payload, codeSet, id) {
      HoldsNameExactly(d.payload, codeSet, id);
    }
  }

  lemma SerialExactly(payload: bytes, codeSet: int, serial: string, kind: string)
    requires codeSet == 1 || codeSet == 2
    ensures SerialOf(payload, codeSet, kind, serial) <==>
            if codeSet == 2 then TextIdentifier(payload) == Some(serial)
            else !AllZero(payload) && serial == "vpd83-" + kind + "-" + Encode(payload)
  {
    if codeSet == 2 {
      TextExactly(payload, serial);
    }
  }

  // ----- the page as a list of descriptors -----

  datatype Descriptor = Descriptor(b0: byte, b1: byte, b2: byte, payload: bytes)

  predicate Fits(d: Descriptor)
  {
    |d.payload| < 256
  }

  function Wire(d: Descriptor): (r: bytes)
    requires Fits(d)
    ensures |r| == 4 + |d.payload|
  {
    [d.b0, d.b1, d.b2, |d.payload|] + d.payload
  }

  predicate AllFit(ds: seq<Descriptor>)
  {
    forall i :: 0 <= i < |ds| ==> Fits(ds[i])
  }

  function WireAll(ds: seq<Descriptor>): bytes
    requires AllFit(ds)
  {
    if ds == [] then [] else Wire(ds[0]) + WireAll(ds[1..])
  }

  // The first descriptor of an area, when the area holds it whole.
  function First(area: bytes): Option<Descriptor>
  {
    if |area| < 4 || 4 + area[3] as int > |area| then None
    else Some(Descriptor(area[0], area[1], area[2], area[4..4 + area[3] as int]))
  }

  // The descriptors that tile an area, if any do.
  function Tiling(area: bytes): Option<seq<Descriptor>>
  {
    if area == [] then Some([])
    else
      match First(area)
      case None => None
      case Some(d) =>
        match Tiling(area[4 + |d.payload|..])
        case None => None
        case Some(rest) => Some([d] + rest)
  }

  lemma FirstIsWire(area: bytes)
    ensures First(area).Some? ==>
              Fits(First(area).value) && area == Wire(First(area).value) + area[4 + |First(area).value.payload|..]
  {
  }

  lemma FirstOfWire(d: Descriptor, rest: bytes)
    requires Fits(d)
    ensures First(Wire(d) + rest) == Some(d)
    ensures (Wire(d) + rest)[4 + |d.payload|..] == rest
  {
    var area := Wire(d) + rest;
    assert area[4..4 + |d.payload|] == d.payload;
  }

  lemma {:induction false} TilingIsWire(area: bytes)
    ensures Tiling(area).Some? ==> AllFit(Tiling(area).value) && WireAll(Tiling(area).value) == area
  {
    if area != [] && First(area).Some? {
      FirstIsWire(area);
      TilingIsWire(area[4 + |First(area).value.payload|..]);
    }
  }

  function Prepend(ds: seq<Descriptor>, more: Option<seq<Descriptor>>): Option<seq<Descriptor>>
  {
    match more
    case None => None
    case Some(es) => Some(ds + es)
  }

  lemma TilingCons(d: Descriptor, tail: bytes)
    requires Fits(d)
    ensures Tiling(Wire(d) + tail) == Prepend([d], Tiling(tail))
  {
    FirstOfWire(d, tail);
  }

  lemma PrependTwice(d: Descriptor, ds: seq<Descriptor>, more: Option<seq<Descriptor>>)
    ensures Prepend([d], Prepend(ds, more)) == Prepend([d] + ds, more)
  {
    if more.Some? {
      Reassociate([d], ds, more.value);
    }
  }

  lemma PrependNothing(more: Option<seq<Descriptor>>)
    ensures Prepend([], more) == more
  {
    if more.Some? {
      assert [] + more.value == more.value;
    }
  }

  lemma {:induction false} TilingAfter(ds: seq<Descriptor>, rest: bytes)
    requires AllFit(ds)
    ensures Tiling(WireAll(ds) + rest) == Prepend(ds, Tiling(rest))
  {
    if ds == [] {
      assert WireAll(ds) + rest == rest;
      PrependNothing(Tiling(rest));
    } else {
      TilingAfter(ds[1..], rest);
      TilingCons(ds[0], WireAll(ds[1..]) + rest);
      Reassociate(Wire(ds[0]), WireAll(ds[1..]), rest);
      PrependTwice(ds[0], ds[1..], Tiling(rest));
      assert [ds[0]] + ds[1..] == ds;
    }
  }

  // An area is tiled in one way at most, and exactly by the lists that spell it.
  lemma TilingIsExact(area: bytes, ds: seq<Descriptor>)
    ensures Tiling(area) == Some(ds) <==> AllFit(ds) && WireAll(ds) == area
  {
    TilingIsWire(area);
    if AllFit(ds) && WireAll(ds) == area {
      TilingAfter(ds, []);
      assert WireAll(ds) + [] == area && ds + [] == ds;
    }
  }

  // What a descriptor contributes: logical-unit identities only.
  function Contribution(d: Descriptor): Option<Identity>
  {
    if Fits(d) && d.payload != [] && (d.b1 as int / 16) % 4 == 0 then DescriptorIdentity(Wire(d)) else None
  }

  function Identities(ds: seq<Descriptor>): seq<Identity>
  {
    if ds == [] then []
    else
      var n := |ds| - 1;
      Identities(ds[..n]) + (match Contribution(ds[n]) case Some(i) => [i] case None => [])
  }

  // ----- the parser -----

  function Ranked(ids: seq<Identity>): (r: seq<Keyed<Identity>>)
    ensures |r| == |ids|
  {
    seq(|ids|, i requires 0 <= i < |ids| => Keyed(ids[i].rank, ids[i]))
  }

  // The earliest identity of least rank.
  ghost predicate IsChoice(ids: seq<Identity>, chosen: Identity)
  {
    exists k :: EarliestLeast(Ranked(ids), k) && chosen == ids[k]
  }

  lemma StableFirstIsChoice(ids: seq<Identity>)
    requires ids != []
    ensures Sort(Ranked(ids)) != [] && IsChoice(ids, Sort(Ranked(ids))[0].value)
  {
    var k := LeastExists(Ranked(ids));
    SortPutsEarliestLeastFirst(Ranked(ids), k);
  }

  // The bytes the page header declares, when it declares any that are there.
  function Area(data: bytes): Option<bytes>
  {
    if |data| < 4 || data[1] != 0x83 then None
    else
      var length := BigEndian16(data[2], data[3]);
      if length == 0 || length > |data| - 4 then None else Some(data[4..4 + length])
  }

  // One turn of the parser's loop: where the next descriptor starts, and what
  // this one contributes. None when it runs past the end.
  method ReadDescriptor(data: bytes, offset: int, end: int) returns (next: Option<int>, identity: Option<Identity>, ghost d: Descriptor)
    requires 0 <= offset < end <= |data|
    ensures next.None? ==> Tiling(data[offset..end]) == None
    ensures next.Some? ==> offset < next.value <= end && Fits(d) && Wire(d) == data[offset..next.value]
    ensures next.Some? ==> identity == Contribution(d)
  {
    d := Descriptor(0, 0, 0, []);
    if end - offset < 4 {
      return None, None, d;
    }
    var length := data[offset + 3] as int;
    var after := offset + 4 + length;
    if after > end {
      return None, None, d;
    }
    next, identity := Some(after), None;
    d := Descriptor(data[offset], data[offset + 1], data[offset + 2], data[offset + 4..after]);
    assert Wire(d) == data[offset..after];
    if length > 0 {
      var association := (data[offset + 1] as int / 16) % 4;
      if association == 0 {
        identity := DescriptorIdentity(data[offset..after]);
      }
    }
  }

  // A page is accepted exactly when descriptors tile its declared length and
  // one of them is usable; the result is the first of the best.
  method ParseVPD83(data: bytes) returns (r: Option<Identity>)
    ensures r.Some? <==> Area(data).Some? && Tiling(Area(data).value).Some? && Identities(Tiling(Area(data).value).value) != []
    ensures r.Some? ==> IsChoice(Identities(Tiling(Area(data).value).value), r.value)
    ensures r.Some? ==> Preferred(Tiling(Area(data).value).value, r.value)
    ensures r.None? ==> Area(data).None? || Tiling(Area(data).value).None? ||
                        forall d, i :: d in Tiling(Area(data).value).value ==> !Yields(d, i)
  {
    if |data| < 4 || data[1] != 0x83 {
      return None;
    }
    var pageLength := BigEndian16(data[2], data[3]);
    if pageLength == 0 || pageLength > |data| - 4 {
      return None;
    }
    var identities := ReadDescriptors(data, 4 + pageLength);
    if identities.None? || |identities.value| == 0 {
      if identities.Some? {
        NothingYields(Tiling(Area(data).value).value);
      }
      return None;
    }
    StableFirstIsChoice(identities.value);
    var sorted := StableSort.Sort(Ranked(identities.value));
    r := Some(sorted[0].value);
    ChoiceIsPreferred(Tiling(Area(data).value).value, r.value);
  }

  // What one descriptor yields, such that none yields anything better and none
  // before it anything as good.
  ghost predicate Preferred(ds: seq<Descriptor>, chosen: Identity)
  {
    exists k :: PreferredAt(ds, chosen, k)
  }

  ghost predicate PreferredAt(ds: seq<Descriptor>, chosen: Identity, k: int)
  {
    && 0 <= k < |ds| && Yields(ds[k], chosen)
    && forall j, i :: 0 <= j < |ds| && Yields(ds[j], i) ==> chosen.rank <= i.rank && (j < k ==> chosen.rank < i.rank)
  }

  lemma NothingYields(ds: seq<Descriptor>)
    requires Identities(ds) == []
    ensures forall d, i :: d in ds ==> !Yields(d, i)
  {
    forall d, i | d in ds ensures !Yields(d, i) {
      ContributionExactly(d, i);
      IdentityMembers(ds, i);
    }
  }

  // Of a list with at most one more identity, the choice is the earlier one or
  // the new one.
  lemma SplitChoice(before: seq<Identity>, more: seq<Identity>, k: int, chosen: Identity)
    requires |more| <= 1 && EarliestLeast(Ranked(before + more), k) && chosen == (before + more)[k]
    ensures if k < |before| then IsChoice(before, chosen) && (more != [] ==> chosen.rank <= more[0].rank)
            else more == [chosen] && forall i :: i in before ==> chosen.rank < i.rank
  {
    var ids := before + more;
    assert forall l :: 0 <= l < |ids| ==> Ranked(ids)[l].key == ids[l].rank;
    assert forall l :: 0 <= l < |before| ==> ids[l] == before[l] && Ranked(before)[l] == Ranked(ids)[l];
    if k < |before| {
      assert EarliestLeast(Ranked(before), k);
      assert more != [] ==> ids[|before|] == more[0];
    } else {
      forall i | i in before ensures chosen.rank < i.rank {
        var l :| 0 <= l < |before| && before[l] == i;
        assert Ranked(ids)[k].key < Ranked(ids)[l].key;
      }
    }
  }

  lemma {:induction false} ChoiceIsPreferred(ds: seq<Descriptor>, chosen: Identity)
    requires IsChoice(Identities(ds), chosen)
    ensures Preferred(ds, chosen)
  {
    var n := |ds| - 1;
    var front, last := ds[..n], ds[n];
    var more := match Contribution(last) case Some(i) => [i] case None => [];
    var k :| EarliestLeast(Ranked(Identities(ds)), k) && chosen == Identities(ds)[k];
    SplitChoice(Identities(front), more, k, chosen);
    if k < |Identities(front)| {
      ChoiceIsPreferred(front, chosen);
      StillPreferred(front, last, chosen);
      assert front + [last] == ds;
    } else {
      LastIsPreferred(front, last, chosen);
      assert front + [last] == ds;
    }
  }

  lemma StillPreferred(front: seq<Descriptor>, last: Descriptor, chosen: Identity)
    requires Preferred(front, chosen)
    requires Contribution(last).Some? ==> chosen.rank <= Contribution(last).value.rank
    ensures Preferred(front + [last], chosen)
  {
    var k :| PreferredAt(front, chosen, k);
    var ds := front + [last];
    forall j, i | 0 <= j < |ds| && Yields(ds[j], i) ensures chosen.rank <= i.rank && (j < k ==> chosen.rank < i.rank) {
      if j == |front| {
        ContributionExactly(last, i);
      } else {
        assert ds[j] == front[j];
      }
    }
    assert PreferredAt(ds, chosen, k);
  }

  lemma EarlierIsWorse(front: seq<Descriptor>, chosen: Identity, j: int, i: Identity)
    requires forall e :: e in Identities(front) ==> chosen.rank < e.rank
    requires 0 <= j < |front| && Yields(front[j], i)
    ensures chosen.rank < i.rank
  {
    ContributionExactly(front[j], i);
    IdentityMembers(front, i);
  }

  lemma LastIsPreferred(front: seq<Descriptor>, last: Descriptor, chosen: Identity)
    requires Contribution(last) == Some(chosen)
    requires forall i :: i in Identities(front) ==> chosen.rank < i.rank
    ensures Preferred(front + [last], chosen)
  {
    var ds := front + [last];
    ContributionExactly(last, chosen);
    forall j, i | 0 <= j < |ds| && Yields(ds[j], i)
      ensures chosen.rank <= i.rank && (j < |front| ==> chosen.rank < i.rank)
    {
      LastIsBest(front, last, chosen, j, i);
    }
    assert PreferredAt(ds, chosen, |front|);
  }

  lemma LastIsBest(front: seq<Descriptor>, last: Descriptor, chosen: Identity, j: int, i: Identity)
    requires Contribution(last) == Some(chosen)
    requires forall e :: e in Identities(front) ==> chosen.rank < e.rank
    requires 0 <= j <= |front| && Yields((front + [last])[j], i)
    ensures chosen.rank <= i.rank && (j < |front| ==> chosen.rank < i.rank)
  {
    if j < |front| {
      EarlierIsWorse(front, chosen, j, i);
    } else {
      ContributionExactly(last, i);
    }
  }

  // A page with a usable name never yields a serial.
  lemma NamesComeFirst(ds: seq<Descriptor>, chosen: Identity, d: Descriptor, i: Identity)
    requires Preferred(ds, chosen) && d in ds && Yields(d, i) && i.wwn != ""
    ensures chosen.wwn != "" && chosen.serial == ""
  {
    var k :| PreferredAt(ds, chosen, k);
    var j :| 0 <= j < |ds| && ds[j] == d;
    assert chosen.rank <= i.rank;
  }

  // The parser's loop.
  method ReadDescriptors(data: bytes, end: int) returns (r: Option<seq<Identity>>)
    requires 4 <= end <= |data|
    ensures r == match Tiling(data[4..end]) case None => None case Some(ds) => Some(Identities(ds))
  {
    ghost var done: seq<Descriptor> := [];
    var identities: seq<Identity> := [];
    var offset := 4;
    while offset < end
      invariant 4 <= offset <= end
      invariant AllFit(done) && WireAll(done) == data[4..offset]
      invariant identities == Identities(done)
    {
      var next, identity, d := ReadDescriptor(data, offset, end);
      if next.None? {
        RestFails(done, data, offset, end);
        return None;
      }
      if identity.Some? {
        identities := identities + [identity.value];
      }
      IdentitiesSnoc(done, d);
      WireSnoc(done, d);
      Adjoin(data, 4, offset, next.value);
      done := done + [d];
      offset := next.value;
    }
    TilingIsExact(data[4..end], done);
    r := Some(identities);
  }

  lemma Adjoin(data: bytes, i: nat, j: nat, k: nat)
    requires i <= j <= k <= |data|
    ensures data[i..k] == data[i..j] + data[j..k]
  {
  }

  // When the rest of an area has no tiling, the area has none.
  lemma RestFails(done: seq<Descriptor>, data: bytes, offset: nat, end: nat)
    requires 4 <= offset <= end <= |data|
    requires AllFit(done) && WireAll(done) == data[4..offset] && Tiling(data[offset..end]) == None
    ensures Tiling(data[4..end]) == None
  {
    Adjoin(data, 4, offset, end);
    TilingAfter(done, data[offset..end]);
  }

  lemma IdentitiesSnoc(ds: seq<Descriptor>, d: Descriptor)
    ensures Identities(ds + [d]) == Identities(ds) + (match Contribution(d) case Some(i) => [i] case None => [])
  {
    assert (ds + [d])[..|ds|] == ds;
  }

  lemma {:induction false} WireSnoc(ds: seq<Descriptor>, d: Descriptor)
    requires AllFit(ds) && Fits(d)
    ensures AllFit(ds + [d]) && WireAll(ds + [d]) == WireAll(ds) + Wire(d)
  {
    if ds == [] {
      assert ds + [d] == [d] && [d][1..] == [];
    } else {
      assert (ds + [d])[1..] == ds[1..] + [d];
      WireSnoc(ds[1..], d);
    }
  }

  // ----- what the choice does not depend on -----

  // A page that declares a list of descriptors, and whatever follows it.
  function Page(b0: byte, ds: seq<Descriptor>, trailer: bytes): bytes
    requires AllFit(ds) && |WireAll(ds)| < 0x1_0000
  {
    [b0, 0x83, |WireAll(ds)| / 0x100, |WireAll(ds)| % 0x100] + WireAll(ds) + trailer
  }

  // Parsing an encoded list gives the list back.
  lemma PageIsRead(b0: byte, ds: seq<Descriptor>, trailer: bytes)
    requires AllFit(ds) && 0 < |WireAll(ds)| < 0x1_0000
    ensures Area(Page(b0, ds, trailer)) == Some(WireAll(ds))
    ensures Tiling(WireAll(ds)) == Some(ds)
  {
    var page, n := Page(b0, ds, trailer), |WireAll(ds)|;
    assert BigEndian16(page[2], page[3]) == n;
    assert page[4..4 + n] == WireAll(ds);
    TilingIsExact(WireAll(ds), ds);
  }

  lemma {:induction false} IdentityMembers(ds: seq<Descriptor>, i: Identity)
    ensures i in Identities(ds) <==> exists d :: d in ds && Contribution(d) == Some(i)
  {
    if ds != [] {
      var n := |ds| - 1;
      var front, last := ds[..n], ds[n];
      IdentityMembers(front, i);
      IdentitiesSnoc(front, last);
      assert front + [last] == ds;
      if Contribution(last) == Some(i) {
        assert last in ds;
      } else if i in Identities(front) {
        var d :| d in front && Contribution(d) == Some(i);
        assert d in ds;
      }
    }
  }

  // The rank chosen is the least on offer, so that neither the order of the
  // descriptors nor repetitions change it.
  lemma RankIgnoresOrder(ds: seq<Descriptor>, es: seq<Descriptor>, chosen: Identity, other: Identity)
    requires forall d :: d in ds <==> d in es
    requires IsChoice(Identities(ds), chosen) && IsChoice(Identities(es), other)
    ensures chosen.rank == other.rank
  {
    ChoiceIsLeast(ds, chosen);
    ChoiceIsLeast(es, other);
    IdentityMembers(ds, other);
    IdentityMembers(es, other);
    IdentityMembers(ds, chosen);
    IdentityMembers(es, chosen);
  }

  lemma ChoiceIsLeast(ds: seq<Descriptor>, chosen: Identity)
    requires IsChoice(Identities(ds), chosen)
    ensures chosen in Identities(ds) && forall i :: i in Identities(ds) ==> chosen.rank <= i.rank
  {
    var ids := Identities(ds);
    var k :| EarliestLeast(Ranked(ids), k) && chosen == ids[k];
    forall i | i in ids ensures chosen.rank <= i.rank {
      var j :| 0 <= j < |ids| && ids[j] == i;
      assert Ranked(ids)[k].key <= Ranked(ids)[j].key;
    }
  }

  // Whether a page is usable at all does not depend on the order either.
  lemma AcceptanceIgnoresOrder(ds: seq<Descriptor>, es: seq<Descriptor>)
    requires forall d :: d in ds <==> d in es
    ensures Identities(ds) == [] <==> Identities(es) == []
  {
    if Identities(ds) != [] {
      IdentityMembers(ds, Identities(ds)[0]);
      IdentityMembers(es, Identities(ds)[0]);
    }
    if Identities(es) != [] {
      IdentityMembers(ds, Identities(es)[0]);
      IdentityMembers(es, Identities(es)[0]);
    }
  }
}
