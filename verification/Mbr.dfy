// internal/mikrotik/image.go: acceptance of an image's partition table.
module Mbr {
  import opened Wrappers
  import opened Bytes
  import opened Sequences

  const SECTOR := 512

  datatype Partition = Partition(
    index: int,
    kind: byte,
    bootable: bool,
    startSector: int,
    sectors: int,
    offset: int,
    size: int)

  datatype MbrError =
    | Unreadable
    | MissingSignature
    | InvalidBootFlag(index: int)
    | OutsideImage(index: int)
    | NoPartitions
    | Overlap(first: int, second: int)

  // ----- what a table says -----

  function Entry(image: bytes, i: int): bytes
    requires |image| >= SECTOR && 0 <= i < 4
  {
    image[446 + 16 * i..462 + 16 * i]
  }

  function Described(image: bytes, i: int): Partition
    requires |image| >= SECTOR && 0 <= i < 4
  {
    var e := Entry(image, i);
    var start, sectors := LittleEndian32(e[8..12]), LittleEndian32(e[12..16]);
    Partition(i + 1, e[4], e[0] == 0x80, start, sectors, start * SECTOR, sectors * SECTOR)
  }

  predicate Used(image: bytes, i: int)
    requires |image| >= SECTOR && 0 <= i < 4
  {
    Described(image, i).kind != 0 && Described(image, i).sectors != 0
  }

  predicate Apart(p: Partition, q: Partition)
  {
    p.offset + p.size <= q.offset || q.offset + q.size <= p.offset
  }

  // The table the code is to accept.
  ghost predicate Acceptable(image: bytes)
  {
    && |image| >= SECTOR && image[510] == 0x55 && image[511] == 0xAA
    && (exists i :: 0 <= i < 4 && Used(image, i))
    && (forall i :: 0 <= i < 4 && Used(image, i) ==> Sound(image, i))
    && (forall i, j :: 0 <= i < j < 4 && Used(image, i) && Used(image, j) ==> Apart(Described(image, i), Described(image, j)))
  }

  // A used entry with a proper boot flag, inside the image and past sector 0.
  predicate Sound(image: bytes, i: int)
    requires |image| >= SECTOR && 0 <= i < 4
  {
    && Flagged(image, i)
    && SECTOR <= Described(image, i).offset
    && Described(image, i).offset + Described(image, i).size <= |image|
  }

  predicate Flagged(image: bytes, i: int)
    requires |image| >= SECTOR && 0 <= i < 4
  {
    Entry(image, i)[0] == 0 || Entry(image, i)[0] == 0x80
  }

  ghost predicate FirstUnsound(image: bytes, i: int)
    requires |image| >= SECTOR && 0 <= i < 4
  {
    Used(image, i) && !Sound(image, i) && forall j :: 0 <= j < i && Used(image, j) ==> Sound(image, j)
  }

  // Entries are counted from one, and the flag is looked at first.
  ghost function Unsound(image: bytes, i: int): MbrError
    requires |image| >= SECTOR && 0 <= i < 4
  {
    if Flagged(image, i) then OutsideImage(i + 1) else InvalidBootFlag(i + 1)
  }

  // What each refusal says of the image.
  ghost predicate Refused(e: MbrError, image: bytes)
  {
    if |image| < SECTOR then e == Unreadable
    else if image[510] != 0x55 || image[511] != 0xAA then e == MissingSignature
    else if exists i :: 0 <= i < 4 && FirstUnsound(image, i) then
      exists i :: 0 <= i < 4 && FirstUnsound(image, i) && e == Unsound(image, i)
    else if forall i :: 0 <= i < 4 ==> !Used(image, i) then e == NoPartitions
    else
      exists i, j :: Collide(image, i, j) && e == Overlap(i + 1, j + 1)
  }

  ghost predicate Collide(image: bytes, i: int, j: int)
    requires |image| >= SECTOR
  {
    && 0 <= i < 4 && 0 <= j < 4 && i != j && Used(image, i) && Used(image, j)
    && !Apart(Described(image, i), Described(image, j))
  }

  // The used ones of the first `n` entries, in table order.
  function Layout(image: bytes, n: int): (r: seq<Partition>)
    requires |image| >= SECTOR && 0 <= n <= 4
  {
    if n == 0 then []
    else if Used(image, n - 1) then Layout(image, n - 1) + [Described(image, n - 1)]
    else Layout(image, n - 1)
  }

  lemma {:induction false} LayoutMembers(image: bytes, n: int)
    requires |image| >= SECTOR && 0 <= n <= 4
    ensures forall p :: p in Layout(image, n) <==> exists i :: 0 <= i < n && Used(image, i) && p == Described(image, i)
    ensures forall k, l :: 0 <= k < l < |Layout(image, n)| ==> Layout(image, n)[k].index < Layout(image, n)[l].index <= n
  {
    if n > 0 {
      LayoutMembers(image, n - 1);
      var front := Layout(image, n - 1);
      forall k | 0 <= k < |front| ensures front[k].index < n {
        assert front[k] in front;
      }
    }
  }

  // ----- a table written out -----

  // A partition entry as it is stored: boot flag, type, first sector and number
  // of sectors, with the old cylinder addresses left to the writer.
  function EntryBytes(boot: byte, first: bytes, kind: byte, last: bytes, start: int, sectors: int): (r: bytes)
    requires |first| == 3 && |last| == 3
    requires 0 <= start < 0x1_0000_0000 && 0 <= sectors < 0x1_0000_0000
    ensures |r| == 16
  {
    [boot] + first + [kind] + last + ToLittleEndian32(start) + ToLittleEndian32(sectors)
  }

  // An image that starts with 446 bytes of code, four entries and the signature.
  lemma TableIsRead(image: bytes, code: bytes, entries: seq<bytes>, rest: bytes, i: nat)
    requires |code| == 446 && |entries| == 4 && (forall k :: 0 <= k < 4 ==> |entries[k]| == 16) && i < 4
    requires image == code + entries[0] + entries[1] + entries[2] + entries[3] + [0x55, 0xAA] + rest
    ensures |image| >= SECTOR && image[510] == 0x55 && image[511] == 0xAA
    ensures Entry(image, i) == entries[i]
  {
    assert image[446..462] == entries[0] && image[462..478] == entries[1];
    assert image[478..494] == entries[2] && image[494..510] == entries[3];
  }

  // What an entry is taken to say.
  lemma EntryIsRead(image: bytes, i: nat, boot: byte, first: bytes, kind: byte, last: bytes, start: int, sectors: int)
    requires |image| >= SECTOR && i < 4 && |first| == 3 && |last| == 3
    requires 0 <= start < 0x1_0000_0000 && 0 <= sectors < 0x1_0000_0000
    requires Entry(image, i) == EntryBytes(boot, first, kind, last, start, sectors)
    ensures Described(image, i) == Partition(i + 1, kind, boot == 0x80, start, sectors, 512 * start, 512 * sectors)
    ensures Used(image, i) <==> kind != 0 && sectors != 0
    ensures Sound(image, i) <==> boot in {0, 0x80} && start >= 1 && 512 * start + 512 * sectors <= |image|
  {
    var e := Entry(image, i);
    assert e[0] == boot && e[4] == kind;
    assert e[8..12] == ToLittleEndian32(start) && e[12..16] == ToLittleEndian32(sectors);
    LittleEndianRoundTrip(start);
    LittleEndianRoundTrip(sectors);
  }

  // ----- sorting with arbitrary ties -----

  ghost predicate OrderedByOffset(ps: seq<Partition>)
  {
    forall i :: 1 <= i < |ps| ==> ps[i - 1].offset <= ps[i].offset
  }

  lemma InsertedInOrder(r: seq<Partition>, k: nat, p: Partition)
    requires k <= |r| && OrderedByOffset(r)
    requires k > 0 ==> r[k - 1].offset <= p.offset
    requires k < |r| ==> p.offset <= r[k].offset
    ensures OrderedByOffset(r[..k] + [p] + r[k..])
  {
    var s := r[..k] + [p] + r[k..];
    forall i | 1 <= i < |s| ensures s[i - 1].offset <= s[i].offset {
      if i > k + 1 {
        assert s[i - 1] == r[i - 2] && s[i] == r[i - 1];
      } else if i < k {
        assert s[i - 1] == r[i - 1] && s[i] == r[i];
      }
    }
  }

  lemma InsertedMembers(r: seq<Partition>, k: nat, p: Partition)
    requires k <= |r|
    ensures multiset(r[..k] + [p] + r[k..]) == multiset(r) + multiset{p}
  {
    assert r == r[..k] + r[k..];
  }

  method PlaceFor(r: seq<Partition>, p: Partition) returns (k: nat)
    ensures k <= |r|
    ensures k > 0 ==> r[k - 1].offset <= p.offset
    ensures k < |r| ==> p.offset <= r[k].offset
  {
    k := 0;
    while k < |r| && r[k].offset < p.offset
      invariant 0 <= k <= |r|
      invariant k > 0 ==> r[k - 1].offset <= p.offset
    {
      k := k + 1;
    }
  }

  lemma OneMore(ps: seq<Partition>, i: nat)
    requires i < |ps|
    ensures multiset(ps[..i + 1]) == multiset(ps[..i]) + multiset{ps[i]}
  {
    assert ps[..i + 1] == ps[..i] + [ps[i]];
  }

  // sort.Slice promises nothing about partitions that start together.
  method SortByOffset(ps: seq<Partition>) returns (r: seq<Partition>)
    ensures OrderedByOffset(r) && multiset(r) == multiset(ps)
  {
    r := [];
    for i := 0 to |ps|
      invariant OrderedByOffset(r) && multiset(r) == multiset(ps[..i])
    {
      var k := PlaceFor(r, ps[i]);
      InsertedInOrder(r, k, ps[i]);
      InsertedMembers(r, k, ps[i]);
      OneMore(ps, i);
      r := r[..k] + [ps[i]] + r[k..];
    }
    assert ps[..|ps|] == ps;
  }

  ghost predicate NeighboursApart(ps: seq<Partition>)
  {
    forall i :: 1 <= i < |ps| ==> ps[i - 1].offset + ps[i - 1].size <= ps[i].offset
  }

  lemma {:induction false} NeighboursReach(ps: seq<Partition>, i: nat, j: nat)
    requires NeighboursApart(ps) && i < j < |ps|
    requires forall k :: 0 <= k < |ps| ==> ps[k].size > 0
    ensures ps[i].offset + ps[i].size <= ps[j].offset
  {
    if i < j - 1 {
      NeighboursReach(ps, i, j - 1);
    }
  }

  // Once sorted, comparing neighbours compares all, however ties fell.
  lemma NeighboursDecide(ps: seq<Partition>)
    requires OrderedByOffset(ps) && forall i :: 0 <= i < |ps| ==> ps[i].size > 0
    ensures NeighboursApart(ps) <==> forall i, j :: 0 <= i < j < |ps| ==> Apart(ps[i], ps[j])
  {
    if NeighboursApart(ps) {
      forall i, j | 0 <= i < j < |ps| ensures Apart(ps[i], ps[j]) {
        NeighboursReach(ps, i, j);
      }
    } else {
      var i :| 1 <= i < |ps| && ps[i - 1].offset + ps[i - 1].size > ps[i].offset;
      assert !Apart(ps[i - 1], ps[i]);
    }
  }

  // Being apart pairwise does not depend on the arrangement.
  lemma ApartInAnyOrder(ps: seq<Partition>, qs: seq<Partition>)
    requires multiset(ps) == multiset(qs)
    requires forall i, j :: 0 <= i < j < |ps| ==> ps[i] != ps[j]
    requires forall i, j :: 0 <= i < j < |qs| ==> Apart(qs[i], qs[j])
    ensures forall i, j :: 0 <= i < j < |ps| ==> Apart(ps[i], ps[j])
  {
    forall i, j | 0 <= i < j < |ps| ensures Apart(ps[i], ps[j]) {
      assert ps[i] in multiset(qs) && ps[j] in multiset(qs);
      var k :| 0 <= k < |qs| && qs[k] == ps[i];
      var l :| 0 <= l < |qs| && qs[l] == ps[j];
      assert k != l;
    }
  }

  lemma DistinctInAnyOrder(ps: seq<Partition>, qs: seq<Partition>)
    requires multiset(ps) == multiset(qs)
    requires forall i, j :: 0 <= i < j < |ps| ==> ps[i] != ps[j]
    ensures forall i, j :: 0 <= i < j < |qs| ==> qs[i] != qs[j]
  {
    forall i, j | 0 <= i < j < |qs| ensures qs[i] != qs[j] {
      DistinctOccurOnce(ps, qs[i]);
      if qs[i] == qs[j] {
        OccursTwice(qs, i, j);
        assert false;
      }
    }
  }

  // ----- the inspection -----

  // One turn of the loop over the four entries.
  method ReadEntry(image: bytes, index: int) returns (r: Result<Option<Partition>, MbrError>)
    requires |image| >= SECTOR && 0 <= index < 4
    ensures r.Ok? <==> (Used(image, index) ==> Sound(image, index))
    ensures r.Err? ==> r.error == if Flagged(image, index) then OutsideImage(index + 1) else InvalidBootFlag(index + 1)
    ensures r.Ok? ==> r.value == if Used(image, index) then Some(Described(image, index)) else None
  {
    var offset := 446 + index * 16;
    var entry := image[offset..offset + 16];
    assert entry == Entry(image, index);
    var kind, start, sectors := entry[4], LittleEndian32(entry[8..12]), LittleEndian32(entry[12..16]);
    if kind == 0 || sectors == 0 {
      return Ok(None);
    }
    if entry[0] != 0 && entry[0] != 0x80 {
      return Err(InvalidBootFlag(index + 1));
    }
    var p := Partition(index + 1, kind, entry[0] == 0x80, start, sectors, start * SECTOR, sectors * SECTOR);
    if p.offset < SECTOR || p.offset + p.size > |image| {
      return Err(OutsideImage(index + 1));
    }
    r := Ok(Some(p));
  }

  method ReadTable(image: bytes) returns (r: Result<seq<Partition>, MbrError>)
    requires |image| >= SECTOR
    ensures r.Ok? <==> forall i :: 0 <= i < 4 && Used(image, i) ==> Sound(image, i)
    ensures r.Err? ==> exists i :: 0 <= i < 4 && FirstUnsound(image, i) && r.error == Unsound(image, i)
    ensures r.Ok? ==> r.value == Layout(image, 4)
  {
    var partitions: seq<Partition> := [];
    for index := 0 to 4
      invariant partitions == Layout(image, index)
      invariant forall i :: 0 <= i < index && Used(image, i) ==> Sound(image, i)
    {
      var entry := ReadEntry(image, index);
      if entry.Err? {
        assert FirstUnsound(image, index);
        return Err(entry.error);
      }
      if entry.value.Some? {
        partitions := partitions + [entry.value.value];
      }
    }
    r := Ok(partitions);
  }

  // Partition `k - 1` reaches into its neighbour.
  ghost predicate Reaches(ordered: seq<Partition>, k: int)
  {
    1 <= k < |ordered| && ordered[k].offset < ordered[k - 1].offset + ordered[k - 1].size
  }

  method FindOverlap(ordered: seq<Partition>) returns (overlap: Option<MbrError>)
    ensures overlap.None? <==> NeighboursApart(ordered)
    ensures overlap.Some? ==> exists k :: Reaches(ordered, k) && overlap.value == Overlap(ordered[k - 1].index, ordered[k].index)
  {
    var index := 1;
    while index < |ordered|
      invariant forall i :: 1 <= i < index && i < |ordered| ==> ordered[i - 1].offset + ordered[i - 1].size <= ordered[i].offset
    {
      if ordered[index].offset < ordered[index - 1].offset + ordered[index - 1].size {
        assert Reaches(ordered, index);
        return Some(Overlap(ordered[index - 1].index, ordered[index].index));
      }
      index := index + 1;
    }
    overlap := None;
  }

  // Inspect accepts exactly the acceptable tables.
  method Inspect(image: bytes) returns (r: Result<seq<Partition>, MbrError>)
    ensures r.Ok? <==> Acceptable(image)
    ensures r.Err? ==> Refused(r.error, image)
    ensures r.Ok? ==> r.value == Layout(image, 4)
  {
    if |image| < SECTOR {
      return Err(Unreadable);
    }
    if image[510] != 0x55 || image[511] != 0xAA {
      return Err(MissingSignature);
    }
    r := ReadTable(image);
    if r.Err? {
      return;
    }
    var partitions := r.value;
    LayoutMembers(image, 4);
    assert forall i :: 0 <= i < 4 && Used(image, i) ==> Described(image, i) in partitions;
    if |partitions| == 0 {
      return Err(NoPartitions);
    }
    assert partitions[0] in partitions;
    var ordered := SortByOffset(partitions);
    LayoutDisjoint(image, partitions, ordered);
    var overlap := FindOverlap(ordered);
    if overlap.Some? {
      OverlapIsThere(image, partitions, ordered, overlap.value);
      return Err(overlap.value);
    }
  }

  lemma OverlapIsThere(image: bytes, partitions: seq<Partition>, ordered: seq<Partition>, e: MbrError)
    requires |image| >= SECTOR && partitions == Layout(image, 4)
    requires OrderedByOffset(ordered) && multiset(ordered) == multiset(partitions)
    requires exists k :: Reaches(ordered, k) && e == Overlap(ordered[k - 1].index, ordered[k].index)
    ensures exists i, j :: Collide(image, i, j) && e == Overlap(i + 1, j + 1)
  {
    var k :| Reaches(ordered, k) && e == Overlap(ordered[k - 1].index, ordered[k].index);
    var p, q := ordered[k - 1], ordered[k];
    assert p in multiset(ordered) && q in multiset(ordered);
    assert p in partitions && q in partitions;
    LayoutMembers(image, 4);
    DistinctInAnyOrder(partitions, ordered);
    var i :| 0 <= i < 4 && Used(image, i) && Described(image, i) == p;
    var j :| 0 <= j < 4 && Used(image, j) && Described(image, j) == q;
    assert p.index == i + 1 && q.index == j + 1;
    assert Collide(image, i, j);
  }

  lemma LayoutDisjoint(image: bytes, partitions: seq<Partition>, ordered: seq<Partition>)
    requires |image| >= SECTOR && partitions == Layout(image, 4)
    requires OrderedByOffset(ordered) && multiset(ordered) == multiset(partitions)
    ensures NeighboursApart(ordered) <==>
            forall i, j :: 0 <= i < j < 4 && Used(image, i) && Used(image, j) ==> Apart(Described(image, i), Described(image, j))
  {
    LayoutMembers(image, 4);
    forall i | 0 <= i < |ordered| ensures ordered[i].size > 0 {
      assert ordered[i] in multiset(partitions);
      assert ordered[i] in partitions;
    }
    NeighboursDecide(ordered);
    DistinctInAnyOrder(partitions, ordered);
    if NeighboursApart(ordered) {
      ApartInAnyOrder(partitions, ordered);
      forall i, j | 0 <= i < j < 4 && Used(image, i) && Used(image, j)
        ensures Apart(Described(image, i), Described(image, j))
      {
        assert Described(image, i) in partitions && Described(image, j) in partitions;
        var k :| 0 <= k < |partitions| && partitions[k] == Described(image, i);
        var l :| 0 <= l < |partitions| && partitions[l] == Described(image, j);
        assert k != l;
      }
    } else if forall i, j :: 0 <= i < j < 4 && Used(image, i) && Used(image, j) ==> Apart(Described(image, i), Described(image, j)) {
      forall k, l | 0 <= k < l < |partitions| ensures Apart(partitions[k], partitions[l]) {
        assert partitions[k] in partitions && partitions[l] in partitions;
        var i :| 0 <= i < 4 && Used(image, i) && partitions[k] == Described(image, i);
        var j :| 0 <= j < 4 && Used(image, j) && partitions[l] == Described(image, j);
        assert i != j;
      }
      ApartInAnyOrder(ordered, partitions);
      assert false;
    }
  }
}
