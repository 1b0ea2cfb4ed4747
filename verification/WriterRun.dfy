// internal/install/writer_linux.go: the writer's whole run, gate by gate.
module WriterRun {
  import opened Wrappers
  import opened Bytes
  import opened Writer
  import F = Fingerprint
  import Text

  // ----- the disk must not be in use -----

  // An entry of /sys/class/block: its resolved path and its major:minor.
  datatype Block = Block(name: string, partition: bool, resolved: string, dev: string)

  // A line of /proc/swaps: its fields, and the identity of what it names when
  // that can be read.
  datatype Swap = Swap(fields: seq<string>, identity: Option<string>)

  // None stands for a file that cannot be read to its end.
  datatype Usage = Usage(blocks: seq<Block>, mounts: Option<seq<seq<string>>>, swaps: Option<seq<Swap>>)

  function DevOf(blocks: seq<Block>, name: string): string
  {
    if blocks == [] then "" else if blocks[0].name == name then blocks[0].dev else DevOf(blocks[1..], name)
  }

  function ResolvedOf(blocks: seq<Block>, name: string): string
  {
    if blocks == [] then "" else if blocks[0].name == name then blocks[0].resolved else ResolvedOf(blocks[1..], name)
  }

  predicate PartitionOf(b: Block, diskPath: string)
  {
    b.partition && diskPath != "" && diskPath + "/" <= b.resolved
  }

  ghost predicate OnPartition(blocks: seq<Block>, diskPath: string, id: string)
  {
    id != "" && exists b :: b in blocks && PartitionOf(b, diskPath) && b.dev == id
  }

  // The disk itself and its partitions.
  ghost predicate BelongsTo(u: Usage, path: string, id: string)
  {
    var name := Text.Base(path);
    id == DevOf(u.blocks, name) || OnPartition(u.blocks, ResolvedOf(u.blocks, name), id)
  }

  ghost predicate MountHits(u: Usage, path: string, fields: seq<string>)
  {
    |fields| > 2 && BelongsTo(u, path, fields[2])
  }

  ghost predicate SwapHits(u: Usage, path: string, s: Swap)
  {
    s.fields != [] && s.fields[0] != "Filename" && s.identity.Some? && BelongsTo(u, path, s.identity.value)
  }

  ghost predicate Unused(u: Usage, path: string)
  {
    && u.mounts.Some? && u.swaps.Some?
    && (forall line :: line in u.mounts.value ==> !MountHits(u, path, line))
    && (forall s :: s in u.swaps.value ==> !SwapHits(u, path, s))
  }

  // A block device of that name is listed once, with its number.
  ghost predicate ListedOnce(u: Usage, b: Block)
  {
    b in u.blocks && b.name != "" && '/' !in b.name && forall c :: c in u.blocks && c.name == b.name ==> c == b
  }

  // `c` is the disk `b` or a partition below it, and it has a number.
  ghost predicate PartOf(c: Block, b: Block)
  {
    c == b || (c.partition && c.dev != "" && b.resolved != "" && b.resolved + "/" <= c.resolved)
  }

  // Neither the disk nor a partition of it appears in the mount table or as
  // swap, and both tables could be read.
  ghost predicate NotInUse(u: Usage, b: Block)
  {
    && u.mounts.Some? && u.swaps.Some?
    && (forall line, c :: line in u.mounts.value && |line| > 2 && c in u.blocks && PartOf(c, b) ==> line[2] != c.dev)
    && (forall s, c :: s in u.swaps.value && s.fields != [] && s.fields[0] != "Filename" && c in u.blocks && PartOf(c, b) ==>
          s.identity != Some(c.dev))
  }

  lemma {:induction false} FirstListed(blocks: seq<Block>, b: Block)
    requires b in blocks && forall c :: c in blocks && c.name == b.name ==> c == b
    ensures DevOf(blocks, b.name) == b.dev && ResolvedOf(blocks, b.name) == b.resolved
  {
    if blocks[0].name != b.name {
      assert b in blocks[1..];
      FirstListed(blocks[1..], b);
    } else {
      assert blocks[0] in blocks;
    }
  }

  // What belongs to the device at /dev/NAME.
  lemma BelongsExactly(u: Usage, b: Block, id: string)
    requires ListedOnce(u, b)
    ensures BelongsTo(u, "/dev/" + b.name, id) <==> exists c :: c in u.blocks && PartOf(c, b) && c.dev == id
  {
    assert "/dev/" + b.name == "/dev" + "/" + b.name;
    Text.BaseOf("/dev", b.name);
    FirstListed(u.blocks, b);
    if c :| c in u.blocks && PartOf(c, b) && c.dev == id {
      assert c == b || PartitionOf(c, b.resolved);
    }
    if OnPartition(u.blocks, b.resolved, id) {
      var c :| c in u.blocks && PartitionOf(c, b.resolved) && c.dev == id;
      assert PartOf(c, b);
    }
  }

  // The gate at /dev/NAME passes exactly when the device is not in use.
  lemma UnusedExactly(u: Usage, b: Block)
    requires ListedOnce(u, b)
    ensures Unused(u, "/dev/" + b.name) <==> NotInUse(u, b)
  {
    var path := "/dev/" + b.name;
    forall id ensures BelongsTo(u, path, id) <==> exists c :: c in u.blocks && PartOf(c, b) && c.dev == id {
      BelongsExactly(u, b, id);
    }
    if Unused(u, path) {
      forall line, c | line in u.mounts.value && |line| > 2 && c in u.blocks && PartOf(c, b) ensures line[2] != c.dev {
        assert !MountHits(u, path, line);
      }
      forall s, c | s in u.swaps.value && s.fields != [] && s.fields[0] != "Filename" && c in u.blocks && PartOf(c, b)
        ensures s.identity != Some(c.dev)
      {
        assert !SwapHits(u, path, s);
      }
    }
  }

  method EnsureUnmounted(u: Usage, path: string) returns (ok: bool)
    ensures ok <==> Unused(u, path)
    ensures forall b :: ListedOnce(u, b) && path == "/dev/" + b.name ==> (ok <==> NotInUse(u, b))
  {
    forall b | ListedOnce(u, b) && path == "/dev/" + b.name ensures Unused(u, path) <==> NotInUse(u, b) {
      UnusedExactly(u, b);
    }
    var name := Text.Base(path);
    var ids := {DevOf(u.blocks, name)};
    var resolved := ResolvedOf(u.blocks, name);
    for i := 0 to |u.blocks|
      invariant forall id :: id in ids <==> id == DevOf(u.blocks, name) || OnPartition(u.blocks[..i], resolved, id)
    {
      var b := u.blocks[i];
      assert forall x :: x in u.blocks[..i + 1] <==> x in u.blocks[..i] || x == b;
      if b.partition && resolved != "" && resolved + "/" <= b.resolved && b.dev != "" {
        ids := ids + {b.dev};
      }
    }
    assert u.blocks[..|u.blocks|] == u.blocks;
    assert forall id :: id in ids <==> BelongsTo(u, path, id);
    if u.mounts.None? {
      return false;
    }
    var lines := u.mounts.value;
    for i := 0 to |lines|
      invariant forall line :: line in lines[..i] ==> !MountHits(u, path, line)
    {
      if |lines[i]| > 2 && lines[i][2] in ids {
        assert MountHits(u, path, lines[i]);
        return false;
      }
    }
    if u.swaps.None? {
      return false;
    }
    var swaps := u.swaps.value;
    for i := 0 to |swaps|
      invariant forall s :: s in swaps[..i] ==> !SwapHits(u, path, s)
    {
      var s := swaps[i];
      if s.fields == [] || s.fields[0] == "Filename" || s.identity.None? {
        continue;
      }
      if s.identity.value in ids {
        assert SwapHits(u, path, s);
        return false;
      }
    }
    return true;
  }

  // ----- the disk must be the authorized one -----

  ghost predicate Unlisted(u: Usage, name: string)
  {
    name != "" && '/' !in name && forall c :: c in u.blocks ==> c.name != name
  }

  lemma {:induction false} NotListed(blocks: seq<Block>, name: string)
    requires forall c :: c in blocks ==> c.name != name
    ensures DevOf(blocks, name) == "" && ResolvedOf(blocks, name) == ""
  {
    if blocks != [] {
      assert blocks[0] in blocks;
      NotListed(blocks[1..], name);
    }
  }

  // A device that is not listed has no number, and nothing below it.
  lemma BelongsToNone(u: Usage, name: string, id: string)
    requires Unlisted(u, name)
    ensures BelongsTo(u, "/dev/" + name, id) <==> id == ""
  {
    assert "/dev/" + name == "/dev" + "/" + name;
    Text.BaseOf("/dev", name);
    NotListed(u.blocks, name);
  }

  // A poll that shows an authorized disk at `path`.
  ghost predicate Shows(expected: F.Disk, poll: Option<seq<F.Disk>>, path: string)
  {
    poll.Some? && exists d :: F.Authorizes(expected, poll.value, d) && d.path == path
  }

  // Polls until the deadline; None is a listing that failed.
  method WaitForFingerprint(expected: F.Disk, polls: seq<Option<seq<F.Disk>>>) returns (path: Option<string>)
    ensures path.Some? ==> exists k :: 0 <= k < |polls| && Shows(expected, polls[k], path.value)
    ensures path.None? ==> forall k, p :: 0 <= k < |polls| ==> !Shows(expected, polls[k], p)
  {
    for k := 0 to |polls|
      invariant forall j, p :: 0 <= j < k ==> !Shows(expected, polls[j], p)
    {
      if polls[k].Some? {
        var match_ := F.SelectAuthorizedFingerprint(expected, polls[k].value);
        if match_.Some? {
          return Some(match_.value.path);
        }
      }
    }
    path := None;
  }

  // ----- the run -----

  datatype Manifest = Manifest(disk: F.Disk, imageHash: string, imageSize: int, otherwiseValid: bool)

  // What Validate says of the disk and the image.
  predicate ValidManifest(m: Manifest)
  {
    && m.disk.path != "" && m.disk.kernelName != "" && m.disk.sizeBytes != 0
    && (m.disk.wwn != "" || m.disk.serial != "" || m.disk.majorMinor != "")
    && |m.imageHash| == 64 && 0 < m.imageSize <= m.disk.sizeBytes
    && m.otherwiseValid
  }

  method CheckManifest(m: Manifest) returns (ok: bool)
    ensures ok <==> ValidManifest(m)
  {
    if m.disk.path == "" || m.disk.kernelName == "" || m.disk.sizeBytes == 0 {
      return false;
    }
    if m.disk.wwn == "" && m.disk.serial == "" && m.disk.majorMinor == "" {
      return false;
    }
    if |m.imageHash| != 64 || m.imageSize <= 0 {
      return false;
    }
    if m.imageSize > m.disk.sizeBytes {
      return false;
    }
    ok := m.otherwiseValid;
  }

  datatype WriterError =
    | BadManifest | ImageUnreadable | ImageChanged | NoTarget | TargetInUse | NotADevice
    | SourceUnreadable | TargetUnopened | NotWritten(cause: CopyError) | NotSynced | SourceChanged
    | NotFlushed | NotReadBack(cause: CopyError) | Mismatch | RebootFailed

  // How the system calls of a run turn out: opening and syncing the target,
  // opening, flushing and reading it back, and the reboot.
  datatype Calls = Calls(opens: bool, synced: bool, flushed: bool, readable: bool, rebooted: bool)

  // Every gate before the first write is passed for the device at `path`.
  ghost predicate GatesPassed(
      m: Option<Manifest>, image: Option<bytes>, polls: seq<Option<seq<F.Disk>>>, usage: Usage, hash: Hash,
      path: string)
  {
    && m.Some? && ValidManifest(m.value)
    && image.Some? && hash(image.value) == m.value.imageHash && |image.value| == m.value.imageSize
    && (exists k :: 0 <= k < |polls| && Shows(m.value.disk, polls[k], path))
    && Unused(usage, path)
  }

  // What each refusal is about. The failures of single system calls stand for
  // themselves.
  ghost predicate Refuses(
      e: WriterError, m: Option<Manifest>, image: Option<bytes>, polls: seq<Option<seq<F.Disk>>>, usage: Usage,
      hash: Hash)
  {
    if m.None? || !ValidManifest(m.value) then e.BadManifest?
    else if image.None? then e.ImageUnreadable?
    else if hash(image.value) != m.value.imageHash || |image.value| != m.value.imageSize then e.ImageChanged?
    else if forall k, p :: 0 <= k < |polls| ==> !Shows(m.value.disk, polls[k], p) then e.NoTarget?
    else
      match e
      case TargetInUse => exists k, p :: 0 <= k < |polls| && Shows(m.value.disk, polls[k], p) && !Unused(usage, p)
      case BadManifest | ImageUnreadable | ImageChanged | NoTarget => false
      case _ => true
  }

  // RunWriter up to the last check that needs no open file.
  method PassGates(manifest: Option<Manifest>, image: Option<bytes>, polls: seq<Option<seq<F.Disk>>>, usage: Usage, hash: Hash)
    returns (r: Result<string, WriterError>)
    ensures r.Ok? ==> GatesPassed(manifest, image, polls, usage, hash, r.value)
    ensures r.Ok? ==> forall b :: ListedOnce(usage, b) && r.value == "/dev/" + b.name ==> NotInUse(usage, b)
    ensures r.Err? ==> Refuses(r.error, manifest, image, polls, usage, hash)
    ensures r.Err? ==> r.error in {BadManifest, ImageUnreadable, ImageChanged, NoTarget, TargetInUse}
  {
    if manifest.None? {
      return Err(BadManifest);
    }
    var m := manifest.value;
    var valid := CheckManifest(m);
    if !valid {
      return Err(BadManifest);
    }
    if image.None? {
      return Err(ImageUnreadable);
    }
    if hash(image.value) != m.imageHash || |image.value| != m.imageSize {
      return Err(ImageChanged);
    }
    var found := WaitForFingerprint(m.disk, polls);
    if found.None? {
      return Err(NoTarget);
    }
    var free := EnsureUnmounted(usage, found.value);
    r := if free then Ok(found.value) else Err(TargetInUse);
  }

  // RunWriter from the opening for read-back to the comparison.
  method ReadBack(target: Device, m: Manifest, hash: Hash, calls: Calls) returns (r: Result<(), WriterError>)
    requires m.imageSize > 0
    ensures r.Ok? ==> |target.content| >= m.imageSize && hash(target.content[..m.imageSize]) == m.imageHash
    ensures r.Err? ==> r.error.NotFlushed? || r.error.NotReadBack? || r.error.Mismatch?
    ensures r == Err(NotFlushed) <==> !calls.flushed
    ensures r.Err? && r.error.NotReadBack? ==> !calls.readable || |target.content| < m.imageSize
    ensures r.Ok? ==> calls.flushed
    ensures r == Err(Mismatch) ==> |target.content| >= m.imageSize && hash(target.content[..m.imageSize]) != m.imageHash
  {
    if !calls.flushed {
      return Err(NotFlushed);
    }
    var readback := new Source(target.content, calls.readable);
    var verified := HashPrefix(readback, m.imageSize, hash);
    if verified.Err? {
      return Err(NotReadBack(verified.error));
    }
    if verified.value != m.imageHash {
      return Err(Mismatch);
    }
    r := Ok(());
  }

  // Why a run stopped after the target was opened, in terms of what happened to
  // the source and the target.
  ghost predicate Stops(e: WriterError, m: Manifest, hash: Hash, calls: Calls, source: Source, target: Device)
    reads source, target
  {
    match e
    case NotWritten(_) => source.failed || target.failed || |source.content| < m.imageSize
    case NotSynced => !calls.synced
    case SourceChanged => hash(target.sent) != m.imageHash
    case NotFlushed => !calls.flushed
    case NotReadBack(_) => !calls.readable || |target.content| < m.imageSize
    case Mismatch => 0 <= m.imageSize <= |target.content| && hash(target.content[..m.imageSize]) != m.imageHash
    case _ => false
  }

  // RunWriter from the first write to the comparison.
  method WriteAndVerify(source: Source, target: Device, m: Manifest, hash: Hash, calls: Calls) returns (r: Result<(), WriterError>)
    requires source.Valid() && source.position == 0 && !source.failed && m.imageSize > 0
    requires target.cursor == 0 && target.sent == [] && !target.failed
    modifies source, target
    ensures target.sent <= source.content && |target.sent| <= m.imageSize
    ensures SameFrom(old(target.content), target.content, m.imageSize)
    ensures r.Ok? ==> |target.content| >= m.imageSize && hash(target.content[..m.imageSize]) == m.imageHash
    ensures r.Ok? ==> |target.sent| == m.imageSize && hash(target.sent) == m.imageHash && calls.synced && calls.flushed
    ensures r.Err? ==> Stops(r.error, m, hash, calls, source, target)
  {
    var copied := CopyImage(source, target, m.imageSize, hash);
    if copied.Err? {
      return Err(NotWritten(copied.error));
    }
    if !calls.synced {
      return Err(NotSynced);
    }
    if copied.value != m.imageHash {
      return Err(SourceChanged);
    }
    r := ReadBack(target, m, hash, calls);
  }

  // RunWriter. `manifest` is what ReadManifest decodes, `image` the file that
  // is hashed, `source` the file that is opened later, `devices` the block
  // devices by path.
  method RunWriter(
      manifest: Option<Manifest>, image: Option<bytes>, polls: seq<Option<seq<F.Disk>>>, usage: Usage,
      source: Option<Source>, devices: map<string, Device>, hash: Hash, reboot: bool, calls: Calls)
    returns (r: Result<(), WriterError>, rebooted: bool, ghost written: Option<string>)
    requires source.Some? ==> source.value.Valid() && source.value.position == 0 && !source.value.failed
    requires forall p :: p in devices ==> devices[p].cursor == 0 && devices[p].sent == [] && !devices[p].failed
    requires forall p, q :: p in devices && q in devices && p != q ==> devices[p] != devices[q]
    modifies (if source.Some? then {source.value} else {}), devices.Values
    ensures written.Some? ==> written.value in devices && GatesPassed(manifest, image, polls, usage, hash, written.value)
    ensures written.Some? ==> source.Some? && calls.opens
    ensures written.Some? ==> forall b :: ListedOnce(usage, b) && written.value == "/dev/" + b.name ==> NotInUse(usage, b)
    ensures forall p :: p in devices && written != Some(p) ==>
              devices[p].content == old(devices[p].content) && devices[p].sent == []
    ensures written.Some? ==>
              && SameFrom(old(devices[written.value].content), devices[written.value].content, manifest.value.imageSize)
              && devices[written.value].sent <= source.value.content
              && |devices[written.value].sent| <= manifest.value.imageSize <= manifest.value.disk.sizeBytes
    ensures rebooted || r.Ok? ==>
              && written.Some? && |devices[written.value].content| >= manifest.value.imageSize
              && hash(devices[written.value].content[..manifest.value.imageSize]) == manifest.value.imageHash
    ensures rebooted <==> reboot && r.Ok?
    ensures r.Ok? ==> hash(devices[written.value].sent) == manifest.value.imageHash
    ensures r.Ok? ==> calls.synced && calls.flushed && (reboot ==> calls.rebooted)
    ensures r.Err? ==> Refuses(r.error, manifest, image, polls, usage, hash)
    ensures r.Err? && written.Some? ==>
              || Stops(r.error, manifest.value, hash, calls, source.value, devices[written.value])
              || (r.error == RebootFailed && reboot && !calls.rebooted)
    ensures r.Err? && written.None? ==> NotStarted(r.error, source, calls)
    ensures r == Err(NotADevice) ==> exists k, p :: 0 <= k < |polls| && Shows(manifest.value.disk, polls[k], p) && p !in devices
    ensures CollisionFree(hash) && (rebooted || r.Ok?) ==>
              image.Some? && |image.value| <= |devices[written.value].content| && image.value <= devices[written.value].content
  {
    rebooted, written := false, None;
    var found := PassGates(manifest, image, polls, usage, hash);
    if found.Err? {
      return Err(found.error), false, None;
    }
    var m, path := manifest.value, found.value;
    if path !in devices {
      return Err(NotADevice), false, None;
    }
    if source.None? {
      return Err(SourceUnreadable), false, None;
    }
    if !calls.opens {
      return Err(TargetUnopened), false, None;
    }
    var target := devices[path];
    written := Some(path);
    r := WriteAndVerify(source.value, target, m, hash, calls);
    if r.Err? {
      return;
    }
    if reboot {
      if !calls.rebooted {
        return Err(RebootFailed), false, written;
      }
      rebooted := true;
    }
  }

  // Why a run ended before anything was opened for writing.
  ghost predicate NotStarted(e: WriterError, source: Option<Source>, calls: Calls)
  {
    match e
    case BadManifest | ImageUnreadable | ImageChanged | NoTarget | TargetInUse | NotADevice => true
    case SourceUnreadable => source.None?
    case TargetUnopened => !calls.opens
    case _ => false
  }
}
