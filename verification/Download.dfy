// internal/mikrotik/client.go: the resumable download.
module Download {
  import opened Wrappers
  import opened Bytes
  import opened ContentRange

  // An answer of the origin: the header fields used, the body bytes that
  // arrive, and whether the transfer broke off after them. A length the origin
  // does not tell is negative.
  datatype Response = Response(status: int, contentLength: int, contentRange: string, body: bytes, interrupted: bool)

  const OK := 200
  const PARTIAL := 206

  // A 200 body is a prefix of the payload, a 206 body a prefix of what follows
  // the start it states.
  ghost predicate Honest(payload: bytes, r: Response)
  {
    && (r.status == OK ==> r.body <= payload)
    && (r.status == PARTIAL && ParseContentRange(r.contentRange).Some? ==>
          var start := ParseContentRange(r.contentRange).value.0;
          start <= |payload| && r.body <= payload[start..])
  }

  // What the response says the whole payload measures, -1 when it does not.
  function AnnouncedTotal(r: Response): int
  {
    if r.status == OK then r.contentLength
    else
      match ParseContentRange(r.contentRange)
      case Some((start, end, total)) => total
      case None => -1
  }

  // The response alone is reason enough to succeed, asked from `offset`.
  predicate Completes(r: Response, offset: nat, maximum: nat)
  {
    && !r.interrupted && (r.contentLength < 0 || r.contentLength == |r.body|)
    && (if r.status == OK then |r.body| <= maximum
        else
          r.status == PARTIAL && match ParseContentRange(r.contentRange)
            case Some((start, end, total)) => start == offset && total == offset + |r.body| <= maximum
            case None => false)
  }

  // The response may be written: it starts where it was asked to or from the
  // beginning, and announces nothing past the maximum.
  predicate Welcome(r: Response, offset: nat, maximum: nat)
  {
    if r.status == OK then r.contentLength <= maximum
    else
      r.status == PARTIAL && match ParseContentRange(r.contentRange)
        case Some((start, end, total)) => start == offset <= maximum && total <= maximum && r.contentLength <= maximum - offset
        case None => false
  }

  // What becomes of the operations of one attempt on this side: opening the
  // partial file, the bytes that can be written, syncing and renaming.
  datatype Local = Local(opens: bool, written: nat, synced: bool, renamed: bool)

  predicate AllWell(local: Local, data: nat)
  {
    local.opens && local.written >= data && local.synced && local.renamed
  }

  // The first `room` bytes of a body.
  function Arriving(body: bytes, room: nat): bytes
  {
    if |body| <= room then body else body[..room]
  }

  // The partial file after an attempt that failed: as it was, or the bytes it
  // had, unless the origin starts over, and those of the body that arrived and
  // could be written, up to one past the maximum.
  function Left(partial: Option<bytes>, response: Option<Response>, maximum: nat, local: Local): Option<bytes>
  {
    var had := if partial.Some? then partial.value else [];
    if |had| > maximum || response.None? || !Welcome(response.value, |had|, maximum) || !local.opens then partial
    else
      var r := response.value;
      var base := if r.status == OK then [] else had;
      Some(base + Arriving(Arriving(r.body, maximum - |base| + 1), local.written))
  }

  // Every answer announces the length of the payload.
  ghost predicate AnnouncesAll(serve: (nat, nat) -> Option<Response>, payload: bytes)
  {
    forall attempt: nat, offset: nat :: serve(attempt, offset).Some? ==> AnnouncedTotal(serve(attempt, offset).value) == |payload|
  }

  predicate InBounds(file: Option<bytes>, payload: bytes, maximum: nat)
  {
    file.Some? ==> file.value <= payload && |file.value| <= maximum + 1
  }

  // The two files a download touches.
  class Files {
    var partial: Option<bytes>
    var destination: Option<bytes>

    constructor (partial: Option<bytes>, destination: Option<bytes>)
      ensures this.partial == partial && this.destination == destination
    {
      this.partial, this.destination := partial, destination;
    }

    function Offset(): nat
      reads this
    {
      if partial.Some? then |partial.value| else 0
    }

    // Opening, seeking and copying: all of `data`, or on failure some of it
    // or nothing at all.
    method WriteAt(offset: nat, data: bytes, local: Local) returns (ok: bool)
      requires offset > 0 ==> partial.Some? && |partial.value| == offset
      modifies this`partial
      ensures ok <==> local.opens && local.written >= |data|
      ensures var base := if offset > 0 then old(partial).value else [];
        partial == if local.opens then Some(base + Arriving(data, local.written)) else old(partial)
    {
      if !local.opens {
        return false;
      }
      var base := if offset > 0 then partial.value else [];
      if local.written < |data| {
        partial := Some(base + data[..local.written]);
        return false;
      }
      partial := Some(base + data);
      return true;
    }

    // downloadOnce. `serve` answers a request for the bytes from an offset on;
    // None is a request that failed.
    method DownloadOnce(serve: nat -> Option<Response>, maximum: nat, local: Local, ghost payload: bytes)
      returns (ok: bool, ghost response: Option<Response>)
      requires InBounds(partial, payload, maximum)
      requires forall offset: nat :: serve(offset).Some? ==> Honest(payload, serve(offset).value)
      modifies this
      ensures InBounds(partial, payload, maximum)
      ensures response == if old(Offset()) > maximum then None else serve(old(Offset()))
      ensures ok <==> response.Some? && Completes(response.value, old(Offset()), maximum) && AllWell(local, |response.value.body|)
      ensures !ok ==> destination == old(destination) && partial == Left(old(partial), response, maximum, local)
      ensures ok ==> partial.None? && destination.Some?
      ensures ok ==> destination.value <= payload && |destination.value| <= maximum
      ensures ok && AnnouncedTotal(response.value) >= 0 ==> |destination.value| == AnnouncedTotal(response.value)
      ensures ok && AnnouncedTotal(response.value) == |payload| ==> destination.value == payload
    {
      ok, response := false, None;
      if Offset() > maximum {
        return;
      }
      var answer := serve(Offset());
      response := answer;
      if answer.None? {
        return;
      }
      ok := Receive(answer.value, maximum, local, payload);
    }

    // The transfer: the body into the file from `offset` on, stopping one byte
    // past the maximum.
    method Transfer(r: Response, offset: nat, maximum: nat, local: Local, ghost payload: bytes) returns (ok: bool, written: nat)
      requires offset <= maximum && InBounds(partial, payload, maximum)
      requires offset > 0 ==> partial.Some? && |partial.value| == offset
      requires r.body <= (if offset <= |payload| then payload[offset..] else [])
      modifies this`partial
      ensures InBounds(partial, payload, maximum)
      ensures var base := if offset > 0 then old(partial).value else [];
        var arrived := Arriving(r.body, maximum - offset + 1);
        && partial == (if local.opens then Some(base + Arriving(arrived, local.written)) else old(partial))
        && (ok <==> local.opens && local.written >= |arrived| && local.synced && !(r.interrupted && |r.body| <= maximum - offset))
        && (ok ==> written == |arrived|)
    {
      var limit := maximum - offset + 1;
      var data := Arriving(r.body, limit);
      written := |data|;
      Extends(payload, if offset > 0 then partial.value else [], r.body, data);
      ok := WriteAt(offset, data, local);
      if !ok {
        return;
      }
      if (r.interrupted && |r.body| < limit) || !local.synced {
        return false, written;
      }
    }

    // downloadOnce once it has a response.
    method Receive(r: Response, maximum: nat, local: Local, ghost payload: bytes) returns (ok: bool)
      requires InBounds(partial, payload, maximum) && Offset() <= maximum && Honest(payload, r)
      modifies this
      ensures InBounds(partial, payload, maximum)
      ensures ok <==> Completes(r, old(Offset()), maximum) && AllWell(local, |r.body|)
      ensures !ok ==> destination == old(destination) && partial == Left(old(partial), Some(r), maximum, local)
      ensures ok ==> partial.None? && destination.Some?
      ensures ok ==> destination.value <= payload && |destination.value| <= maximum
      ensures ok && AnnouncedTotal(r) >= 0 ==> |destination.value| == AnnouncedTotal(r)
      ensures ok && AnnouncedTotal(r) == |payload| ==> destination.value == payload
    {
      var welcome, offset, expectedTotal := Begin(r, Offset(), maximum);
      CompleteIsWelcome(r, Offset(), maximum);
      if !welcome {
        return false;
      }
      LeftAfter(partial, r, offset, maximum, local);
      CompletesWhenAccepted(r, Offset(), offset, maximum);
      var written;
      ok, written := Transfer(r, offset, maximum, local, payload);
      if !ok {
        return;
      }
      var accepted := AcceptSize(r, offset, written, expectedTotal, maximum);
      if !accepted || !local.renamed {
        return false;
      }
      destination, partial := partial, None;
    }

    // download: up to five attempts, unless cancelled in between. `response` is
    // the answer that completed the download, `log` tells of all attempts.
    method Fetch(serve: (nat, nat) -> Option<Response>, maximum: nat, local: nat -> Local, cancelled: nat -> bool, ghost payload: bytes)
      returns (ok: bool, ghost response: Option<Response>, ghost log: seq<Attempt>)
      requires InBounds(partial, payload, maximum)
      requires forall attempt: nat, offset: nat :: serve(attempt, offset).Some? ==> Honest(payload, serve(attempt, offset).value)
      modifies this
      ensures InBounds(partial, payload, maximum)
      ensures !ok ==> destination == old(destination)
      ensures ok ==> partial.None? && destination.Some? && destination.value <= payload && |destination.value| <= maximum
      ensures 1 <= |log| <= 5 && History(serve, local, cancelled, log, old(partial), maximum)
      ensures log[|log| - 1].response == response
      ensures ok <==> Succeeds(log[|log| - 1], maximum)
      ensures !ok ==> (|log| == 5 || log[|log| - 1].cancelled) && partial == LeftBy(log[|log| - 1], maximum)
      ensures ok && AnnouncedTotal(response.value) >= 0 ==> |destination.value| == AnnouncedTotal(response.value)
      ensures ok && AnnouncedTotal(response.value) == |payload| ==> destination.value == payload
      ensures ok && AnnouncesAll(serve, payload) ==> destination.value == payload
    {
      ok, response, log := false, None, [];
      for attempt := 1 to 6
        invariant !ok && InBounds(partial, payload, maximum) && destination == old(destination)
        invariant |log| == attempt - 1 && History(serve, local, cancelled, log, old(partial), maximum)
        invariant partial == NextFile(log, old(partial), maximum)
        invariant log != [] ==> log[|log| - 1].response == response && GaveUp(log[|log| - 1], maximum, attempt == 6)
      {
        ghost var before := partial;
        ok, response := DownloadOnce((offset: nat) => serve(attempt, offset), maximum, local(attempt), payload);
        ghost var now := Attempt(before, response, local(attempt), cancelled(attempt));
        Lengthen(serve, local, cancelled, log, old(partial), maximum, now);
        log := log + [now];
        if ok {
          return;
        }
        if attempt < 5 && cancelled(attempt) {
          return;
        }
      }
    }
  }

  // The switch on the status and the first size check.
  method Begin(r: Response, offset: nat, maximum: nat) returns (welcome: bool, start: nat, expectedTotal: int)
    requires offset <= maximum
    ensures welcome <==> Welcome(r, offset, maximum)
    ensures welcome ==> start == (if r.status == OK then 0 else offset) && expectedTotal == AnnouncedTotal(r)
  {
    welcome, start, expectedTotal := false, offset, -1;
    if r.status == OK {
      start, expectedTotal := 0, r.contentLength;
    } else if r.status == PARTIAL {
      var range_ := ParseContentRange(r.contentRange);
      if range_.None? {
        return;
      }
      if range_.value.0 != offset {
        return;
      }
      expectedTotal := range_.value.2;
    } else {
      return;
    }
    welcome := !(expectedTotal > maximum || r.contentLength > maximum - start);
  }

  lemma CompleteIsWelcome(r: Response, offset: nat, maximum: nat)
    requires offset <= maximum
    ensures Completes(r, offset, maximum) ==> Welcome(r, offset, maximum)
  {
  }

  // What a welcome answer leaves, in terms of the offset it is written at.
  lemma LeftAfter(partial: Option<bytes>, r: Response, offset: nat, maximum: nat, local: Local)
    requires Had(partial) <= maximum && Welcome(r, Had(partial), maximum)
    requires offset == if r.status == OK then 0 else Had(partial)
    ensures Left(partial, Some(r), maximum, local) ==
            if !local.opens then partial
            else
              Some((if offset > 0 then partial.value else []) +
                   Arriving(Arriving(r.body, maximum - offset + 1), local.written))
  {
  }

  // A welcome answer completes the file exactly when what arrives of it passes
  // the size checks and it did not break off.
  lemma CompletesWhenAccepted(r: Response, had: nat, offset: nat, maximum: nat)
    requires had <= maximum && Welcome(r, had, maximum)
    requires offset == if r.status == OK then 0 else had
    ensures var arrived := Arriving(r.body, maximum - offset + 1);
      Completes(r, had, maximum) <==>
        && !(r.interrupted && |r.body| <= maximum - offset)
        && offset + |arrived| <= maximum
        && (r.contentLength < 0 || |arrived| == r.contentLength)
        && (AnnouncedTotal(r) < 0 || offset + |arrived| == AnnouncedTotal(r))
  {
  }

  // The size checks after the transfer.
  method AcceptSize(r: Response, offset: nat, written: nat, expectedTotal: int, maximum: nat) returns (ok: bool)
    ensures ok <==>
            && offset + written <= maximum
            && (r.contentLength < 0 || written == r.contentLength)
            && (expectedTotal < 0 || offset + written == expectedTotal)
  {
    var finalSize := offset + written;
    if finalSize > maximum {
      return false;
    }
    if r.contentLength >= 0 && written != r.contentLength {
      return false;
    }
    if expectedTotal >= 0 && finalSize != expectedTotal {
      return false;
    }
    ok := true;
  }

  // One attempt: the partial file it found, what was answered, how things went
  // on this side, and whether it was called off afterwards.
  datatype Attempt = Attempt(before: Option<bytes>, response: Option<Response>, local: Local, cancelled: bool)

  function Had(file: Option<bytes>): nat
  {
    if file.Some? then |file.value| else 0
  }

  // An attempt asks for what is missing, unless there is too much already.
  ghost predicate Recorded(
      serve: (nat, nat) -> Option<Response>, local: nat -> Local, cancelled: nat -> bool,
      attempt: nat, a: Attempt, maximum: nat)
  {
    && a.local == local(attempt) && a.cancelled == cancelled(attempt)
    && a.response == if Had(a.before) > maximum then None else serve(attempt, Had(a.before))
  }

  ghost predicate Succeeds(a: Attempt, maximum: nat)
  {
    a.response.Some? && Completes(a.response.value, Had(a.before), maximum) && AllWell(a.local, |a.response.value.body|)
  }

  function LeftBy(a: Attempt, maximum: nat): Option<bytes>
  {
    Left(a.before, a.response, maximum, a.local)
  }

  ghost predicate GaveUp(a: Attempt, maximum: nat, last: bool)
  {
    !Succeeds(a, maximum) && (last || !a.cancelled)
  }

  // The partial file the next attempt finds.
  ghost function NextFile(log: seq<Attempt>, first: Option<bytes>, maximum: nat): Option<bytes>
  {
    if log == [] then first else LeftBy(log[|log| - 1], maximum)
  }

  // The attempts in order: each failed, was not called off, and left what the
  // next one found; the last one may be anything.
  ghost predicate History(
      serve: (nat, nat) -> Option<Response>, local: nat -> Local, cancelled: nat -> bool,
      log: seq<Attempt>, first: Option<bytes>, maximum: nat)
  {
    && (forall k :: 0 <= k < |log| ==> Recorded(serve, local, cancelled, k + 1, log[k], maximum))
    && (forall k :: 0 <= k < |log| ==> log[k].before == NextFile(log[..k], first, maximum))
    && (forall k :: 0 <= k < |log| - 1 ==> GaveUp(log[k], maximum, false))
  }

  lemma Lengthen(
      serve: (nat, nat) -> Option<Response>, local: nat -> Local, cancelled: nat -> bool,
      log: seq<Attempt>, first: Option<bytes>, maximum: nat, next: Attempt)
    requires History(serve, local, cancelled, log, first, maximum)
    requires log != [] ==> GaveUp(log[|log| - 1], maximum, false)
    requires next.before == NextFile(log, first, maximum)
    requires Recorded(serve, local, cancelled, |log| + 1, next, maximum)
    ensures History(serve, local, cancelled, log + [next], first, maximum)
  {
    var longer := log + [next];
    forall k | 0 <= k < |longer| ensures longer[k].before == NextFile(longer[..k], first, maximum) {
      assert longer[..k] == log[..k];
      if k == |log| {
        assert log[..k] == log;
      } else {
        assert longer[k] == log[k];
      }
    }
    forall k | 0 <= k < |longer| ensures Recorded(serve, local, cancelled, k + 1, longer[k], maximum) {
      assert k < |log| ==> longer[k] == log[k];
    }
    forall k | 0 <= k < |longer| - 1 ensures GaveUp(longer[k], maximum, false) {
      assert longer[k] == log[k];
    }
  }

  // Continuing a prefix of the payload with what follows it keeps a prefix.
  lemma Extends(payload: bytes, base: bytes, body: bytes, data: bytes)
    requires base <= payload && body <= payload[|base|..] && data <= body
    ensures forall n :: 0 <= n <= |data| ==> base + data[..n] <= payload
    ensures base + data <= payload
  {
    assert payload == base + payload[|base|..];
    assert data == data[..|data|];
  }
}
