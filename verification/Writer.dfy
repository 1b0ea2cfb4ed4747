// internal/install/write.go and writer_linux.go: writing the image to the
// authorized disk and reading it back.
module Writer {
  import opened Wrappers
  import opened Bytes

  // SHA-256 in hexadecimal, uninterpreted.
  type Hash = bytes -> string

  ghost predicate CollisionFree(hash: Hash)
  {
    forall a: bytes, b: bytes :: hash(a) == hash(b) ==> a == b
  }

  // The size of the buffer that both loops read into.
  const CHUNK := 4 * 1024 * 1024

  // How io.ReadFull can end: all asked for, nothing left, less than asked for
  // because the end was reached, or an error.
  datatype ReadOutcome = Full | Ended | Short | Failed

  // An open file. Unless it is reliable, reads may fail at any time.
  class Source {
    const content: bytes
    const reliable: bool
    var position: nat
    var failed: bool

    constructor (content: bytes, reliable: bool)
      ensures this.content == content && this.reliable == reliable && position == 0 && !failed
    {
      this.content, this.reliable := content, reliable;
      position, failed := 0, false;
    }

    ghost predicate Valid()
      reads this
    {
      position <= |content| && (failed ==> !reliable)
    }

    // io.ReadFull into the first `n` bytes of the buffer.
    method ReadFull(n: nat) returns (part: bytes, outcome: ReadOutcome)
      requires Valid() && 0 < n <= CHUNK
      modifies this
      ensures Valid() && old(position) + |part| <= |content| && part == content[old(position)..old(position) + |part|]
      ensures outcome != Failed ==> position == old(position) + |part| && failed == old(failed)
      ensures outcome == Full ==> |part| == n
      ensures outcome == Ended ==> |part| == 0 && position == |content|
      ensures outcome == Short ==> 0 < |part| < n && position == |content|
      ensures outcome == Failed ==> failed && part == []
    {
      part := [];
      var broken: bool := *;
      if broken && !reliable {
        failed := true;
        return [], Failed;
      }
      var left := |content| - position;
      if left >= n {
        part, outcome := content[position..position + n], Full;
      } else if left == 0 {
        outcome := Ended;
      } else {
        part, outcome := content[position..], Short;
      }
      position := position + |part|;
    }
  }

  // A block device opened for writing. What a write leaves in the range it was
  // given is up to the device; so is how much of it it admits to.
  class Device {
    var content: bytes
    var cursor: nat
    var failed: bool
    // The last write went well but admitted to less than it was given.
    var short: bool
    ghost var sent: bytes

    constructor (content: bytes)
      ensures this.content == content && cursor == 0 && sent == [] && !failed && !short
    {
      this.content := content;
      cursor, failed, short := 0, false, false;
      sent := [];
    }

    method Write(part: bytes) returns (count: nat, ok: bool)
      modifies this
      ensures sent == old(sent) + part
      ensures |content| == |old(content)|
      ensures forall i :: 0 <= i < |content| && !(old(cursor) <= i < old(cursor) + |part|) ==> content[i] == old(content)[i]
      ensures cursor == old(cursor) + |part|
      ensures ok && count == |part| ==> failed == old(failed)
      ensures !ok || count != |part| ==> failed
      ensures short == (ok && count != |part|)
    {
      ok := *;
      var admitted: int := *;
      var noise: bytes := *;
      var before, start := content, cursor;
      count := if ok && admitted >= 0 then admitted else 0;
      content := seq(|before|, i requires 0 <= i < |before| =>
        if start <= i < start + |part| && i < |noise| then noise[i] else before[i]);
      cursor := cursor + |part|;
      failed, short := failed || !ok || count != |part|, ok && count != |part|;
      sent := sent + part;
    }
  }

  datatype CopyError = InvalidSize | ReadError | UnexpectedEnd | WriteError | ShortWrite

  // Bytes at and past `bound` are as they were.
  ghost predicate SameFrom(before: bytes, after: bytes, bound: int)
  {
    |before| == |after| && forall i :: 0 <= i < |after| && bound <= i ==> after[i] == before[i]
  }

  method CopyImage(source: Source, target: Device, total: int, hash: Hash) returns (r: Result<string, CopyError>)
    requires source.Valid() && source.position == 0 && !source.failed
    requires target.cursor == 0 && target.sent == [] && !target.failed
    modifies source, target
    ensures source.Valid()
    ensures target.sent <= source.content && |target.sent| <= (if total > 0 then total else 0)
    ensures SameFrom(old(target.content), target.content, total)
    ensures total <= 0 ==> target.content == old(target.content) && r == Err(InvalidSize)
    ensures r.Ok? ==> 0 < total <= |source.content| && target.sent == source.content[..total] && r.value == hash(target.sent)
    ensures r.Err? && total > 0 ==> source.failed || target.failed || |source.content| < total
    ensures r == Err(ReadError) <==> source.failed
    ensures r == Err(WriteError) || r == Err(ShortWrite) <==> target.failed
    ensures (r == Err(WriteError) ==> !target.short) && (r == Err(ShortWrite) ==> target.short)
    ensures r == Err(InvalidSize) <==> total <= 0
  {
    if total <= 0 {
      return Err(InvalidSize);
    }
    var hashed: bytes := [];
    var written := 0;
    while written < total
      invariant 0 <= written <= total
      invariant source.Valid() && source.position == written && !source.failed
      invariant target.cursor == written && !target.failed
      invariant hashed == target.sent == source.content[..written]
      invariant SameFrom(old(target.content), target.content, written)
    {
      var remaining := total - written;
      var size := if CHUNK > remaining then remaining else CHUNK;
      var part, outcome := source.ReadFull(size);
      if outcome == Failed {
        return Err(ReadError);
      }
      if |part| == 0 {
        return Err(UnexpectedEnd);
      }
      assert source.content[..written + |part|] == source.content[..written] + part;
      hashed := hashed + part;
      var count, ok := target.Write(part);
      if !ok {
        return Err(WriteError);
      }
      if count != |part| {
        return Err(ShortWrite);
      }
      written := written + |part|;
      if outcome == Short && written != total {
        return Err(UnexpectedEnd);
      }
    }
    r := Ok(hash(hashed));
  }

  method HashPrefix(source: Source, size: int, hash: Hash) returns (r: Result<string, CopyError>)
    requires source.Valid() && source.position == 0 && !source.failed
    modifies source
    ensures source.Valid()
    ensures r.Ok? ==> 0 < size <= |source.content| && r.value == hash(source.content[..size])
    ensures r.Err? && size > 0 ==> source.failed || |source.content| < size
    ensures r == Err(ReadError) <==> source.failed
    ensures r == Err(InvalidSize) <==> size <= 0
    ensures r.Err? ==> r.error in {ReadError, InvalidSize, UnexpectedEnd}
  {
    if size <= 0 {
      return Err(InvalidSize);
    }
    var hashed: bytes := [];
    var read := 0;
    while read < size
      invariant 0 <= read <= size
      invariant source.Valid() && source.position == read && !source.failed
      invariant hashed == source.content[..read]
    {
      var remaining := size - read;
      var want := if CHUNK > remaining then remaining else CHUNK;
      var part, outcome := source.ReadFull(want);
      if outcome == Failed {
        return Err(ReadError);
      }
      if |part| == 0 {
        return Err(UnexpectedEnd);
      }
      assert source.content[..read + |part|] == source.content[..read] + part;
      hashed := hashed + part;
      read := read + |part|;
      if outcome == Short && read != size {
        return Err(UnexpectedEnd);
      }
    }
    r := Ok(hash(hashed));
  }
}
