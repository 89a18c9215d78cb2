/** Receiving from an adapter stream: the Rust read into a fixed buffer (ffi/src/adapter.rs)
    behind the C++ call that picks the caller's buffer size (cpp/src/adapter_stream.cpp). */
module AdapterStreams {
  import opened Prelude

  /** The size of the Rust side's buffer, and the C++ side's default. */
  const READ_SIZE := 2048

  /** What one read of the connection comes to: some number of the bytes still to come, none at
      the end of the stream, or a failure. */
  datatype Read = Bytes(n: nat) | Fails

  datatype Error = NotConnected | InvalidArg | BufferTooSmall(received: nat, room: nat) | Io

  /** The bytes that arrive on the connection and how many have been read so far. */
  datatype Wire = Wire(incoming: seq<byte>, consumed: nat) {
    predicate Valid() { consumed <= |incoming| }

    /** The number of bytes a read delivers: no more than fit the buffer, no more than there are. */
    function Amount(read: Read): (n: nat)
      requires Valid()
      ensures n <= READ_SIZE && consumed + n <= |incoming|
    {
      match read
      case Fails => 0
      case Bytes(n) =>
        var room := if |incoming| - consumed < READ_SIZE then |incoming| - consumed else READ_SIZE;
        if n < room then n else room
    }

    function After(read: Read): (w: Wire)
      requires Valid()
      ensures w.Valid() && w.incoming == incoming
    {
      Wire(incoming, consumed + Amount(read))
    }

    function Segment(read: Read): seq<byte>
      requires Valid()
    {
      incoming[consumed..consumed + Amount(read)]
    }
  }

  function EffectiveHint(hint: nat): nat {
    if hint == 0 then READ_SIZE else hint
  }

  /** The outcome of one read into a buffer with `room` bytes: the segment is taken from the
      connection before its length is compared with the room. */
  function Received(w: Wire, room: nat, read: Read): Result<seq<byte>, Error>
    requires w.Valid()
  {
    if read.Fails? then Err(Io)
    else if w.Amount(read) > room then Err(BufferTooSmall(w.Amount(read), room))
    else Ok(w.Segment(read))
  }

  /** What one call with a hint comes to: a read takes as many bytes as it was to deliver, at most 2048 and
      at most what there is; with a hint of 0 that is always delivered, with any other exactly when it is
      no more than the hint; and what is delivered is that very stretch of the connection. */
  lemma ReceivedExactly(w: Wire, hint: nat, n: nat)
    requires w.Valid()
    ensures var left, got := |w.incoming| - w.consumed, w.After(Bytes(n)).consumed - w.consumed;
      got == if n <= left && n <= 2048 then n else if left <= 2048 then left else 2048
    ensures var got, r := w.After(Bytes(n)).consumed - w.consumed, Received(w, EffectiveHint(hint), Bytes(n));
      && (r.Ok? <==> hint == 0 || got <= hint)
      && (r.Ok? ==> r.value == w.incoming[w.consumed..w.consumed + got])
      && (r.Err? ==> r.error == BufferTooSmall(got, hint))
    ensures Received(w, EffectiveHint(hint), Fails) == Err(Io) && w.After(Fails) == w
  {
  }

  /** The Rust handle: the connection behind it. */
  class AdapterStreamHandle {
    var wire: Wire
    var closed: bool

    constructor (incoming: seq<byte>)
      ensures wire == Wire(incoming, 0) && !closed
    {
      wire := Wire(incoming, 0);
      closed := false;
    }

    /** adapter_recv. On success the first `r.value` bytes of `data` are the segment. */
    method AdapterRecv(data: array<byte>, read: Read) returns (r: Result<nat, Error>)
      requires wire.Valid()
      modifies this, data
      ensures wire == old(wire.After(read)) && closed == old(closed)
      ensures old(Received(wire, data.Length, read)).Err? ==> r == Err(old(Received(wire, data.Length, read)).error)
      ensures old(Received(wire, data.Length, read)).Ok? ==>
        r.Ok? && r.value <= data.Length && data[..r.value] == old(Received(wire, data.Length, read)).value
    {
      if read.Fails? {
        return Err(Io);
      }
      var received := wire.Segment(read);
      wire := wire.After(read);
      if |received| > data.Length {
        return Err(BufferTooSmall(|received|, data.Length));
      }
      for i := 0 to |received|
        invariant data[..i] == received[..i]
        invariant wire == old(wire.After(read)) && closed == old(closed)
      {
        data[i] := received[i];
      }
      return Ok(|received|);
    }

    /** adapter_stream_close: shutting the connection down has no outcome, so this cannot fail on a
        handle that is there. */
    method Close() returns (r: Result<(), Error>)
      modifies this`closed
      ensures r == Ok(()) && closed
    {
      closed := true;
      return Ok(());
    }
  }

  /** The C++ view over a stream. */
  class AdapterStream {
    var h: AdapterStreamHandle?

    constructor (handle: AdapterStreamHandle?)
      ensures h == handle
    {
      h := handle;
    }

    /** recv(max_hint). */
    method Recv(maxHint: nat, read: Read) returns (r: Result<seq<byte>, Error>)
      requires h != null ==> h.wire.Valid()
      modifies h
      ensures h == null ==> r == Err(NotConnected)
      ensures h != null ==> r == old(Received(h.wire, EffectiveHint(maxHint), read))
      ensures h != null ==> h.wire == old(h.wire.After(read))
    {
      if h == null {
        return Err(NotConnected);
      }
      var hint := if maxHint == 0 then READ_SIZE else maxHint;
      var out := new byte[hint];
      var actual := h.AdapterRecv(out, read);
      match actual
      case Err(e) => return Err(e);
      case Ok(n) => return Ok(out[..n]);
    }

    /** close(): an error would leave the stream attached, but none can come; so the stream is
        detached and its connection shut down, and what has been received stays as it is. Closing a
        detached stream does nothing. */
    method Close() returns (r: Result<(), Error>)
      modifies this, h
      ensures r == Ok(()) && h == null
      ensures old(h) != null ==> old(h).closed && old(h).wire == old(h.wire)
    {
      if h == null { return Ok(()); }
      r := h.Close();
      if r.Err? { return; }
      h := null;
    }

    /** Any sequence of calls on an attached stream: the results are those of the run, and the
        connection has been read as far; so the successful results, interleaved with the segments that
        too small buffers lost, are exactly what was read. */
    method RecvAll(calls: seq<Call>) returns (rs: seq<Result<seq<byte>, Error>>)
      requires h != null && h.wire.Valid()
      modifies h
      ensures h.wire == End(old(h.wire), calls) && rs == Results(old(h.wire), calls)
      ensures Interleave(rs, Losses(old(h.wire), calls)) == h.wire.incoming[old(h.wire).consumed..h.wire.consumed]
    {
      rs := [];
      ghost var w := h.wire;
      assert calls[0..] == calls;
      for i := 0 to |calls|
        invariant h.wire.Valid()
        invariant End(w, calls) == End(h.wire, calls[i..])
        invariant Results(w, calls) == rs + Results(h.wire, calls[i..])
      {
        assert calls[i..][0] == calls[i] && calls[i..][1..] == calls[i + 1..];
        var r := Recv(calls[i].hint, calls[i].read);
        rs := rs + [r];
      }
      assert calls[|calls|..] == [] && rs + [] == rs;
      NothingElseIsLost(w, calls);
    }
  }

  // ----- runs of recv calls -----

  datatype Call = Call(hint: nat, read: Read)

  function End(w: Wire, calls: seq<Call>): (e: Wire)
    requires w.Valid()
    ensures e.Valid() && e.incoming == w.incoming && w.consumed <= e.consumed
    decreases |calls|
  {
    if calls == [] then w else End(w.After(calls[0].read), calls[1..])
  }

  /** What the caller sees, call by call. */
  function Results(w: Wire, calls: seq<Call>): (rs: seq<Result<seq<byte>, Error>>)
    requires w.Valid()
    ensures |rs| == |calls|
    decreases |calls|
  {
    if calls == [] then []
    else [Received(w, EffectiveHint(calls[0].hint), calls[0].read)] + Results(w.After(calls[0].read), calls[1..])
  }

  /** The successful results, with the bytes of `lost` in the places of the failed calls. */
  function Interleave(rs: seq<Result<seq<byte>, Error>>, lost: seq<seq<byte>>): seq<byte>
    requires |rs| == |lost|
  {
    if rs == [] then []
    else (match rs[0] case Ok(bytes) => bytes case Err(_) => lost[0]) + Interleave(rs[1..], lost[1..])
  }

  /** Only a too small buffer loses bytes, and it loses as many as its error says. */
  ghost predicate LostOnlyTo(rs: seq<Result<seq<byte>, Error>>, lost: seq<seq<byte>>) {
    && |rs| == |lost|
    && forall i :: 0 <= i < |rs| ==>
      |lost[i]| == (if rs[i].Err? && rs[i].error.BufferTooSmall? then rs[i].error.received else 0)
  }

  /** The bytes each call of a run loses. */
  function Losses(w: Wire, calls: seq<Call>): (lost: seq<seq<byte>>)
    requires w.Valid()
    ensures |lost| == |calls|
    decreases |calls|
  {
    if calls == [] then []
    else
      var lost := if Received(w, EffectiveHint(calls[0].hint), calls[0].read).Err? then w.Segment(calls[0].read) else [];
      [lost] + Losses(w.After(calls[0].read), calls[1..])
  }

  lemma {:induction false} LossesAreReported(w: Wire, calls: seq<Call>)
    requires w.Valid()
    ensures LostOnlyTo(Results(w, calls), Losses(w, calls))
    decreases |calls|
  {
    if calls != [] {
      LossesAreReported(w.After(calls[0].read), calls[1..]);
    }
  }

  /** Conservation: the successful results, interleaved with the segments lost to too small
      buffers, are exactly the stretch of the connection that was read. */
  lemma {:induction false} NothingElseIsLost(w: Wire, calls: seq<Call>)
    requires w.Valid()
    ensures Interleave(Results(w, calls), Losses(w, calls)) == w.incoming[w.consumed..End(w, calls).consumed]
    decreases |calls|
  {
    if calls != [] {
      var w', end := w.After(calls[0].read), End(w, calls).consumed;
      NothingElseIsLost(w', calls[1..]);
      assert w.incoming[w.consumed..end] == w.Segment(calls[0].read) + w.incoming[w'.consumed..end];
      assert Results(w, calls)[1..] == Results(w', calls[1..]);
      assert Losses(w, calls)[1..] == Losses(w', calls[1..]);
    }
  }

  predicate SafeHint(hint: nat) {
    hint == 0 || hint >= READ_SIZE
  }

  /** A hint is safe on every connection and for every way the read may go exactly when it is 0
      or at least the size of the Rust side's buffer. */
  lemma SafeHintExactly(hint: nat)
    ensures SafeHint(hint) <==>
      forall w: Wire, n: nat :: w.Valid() ==> Received(w, EffectiveHint(hint), Bytes(n)).Ok?
  {
    if !SafeHint(hint) {
      var w := Wire(seq(READ_SIZE, _ => 0), 0);
      assert w.Valid() && Received(w, EffectiveHint(hint), Bytes(READ_SIZE)).Err?;
    }
  }

  /** The delivered bytes alone. */
  function Delivered(rs: seq<Result<seq<byte>, Error>>): seq<byte> {
    if rs == [] then [] else (match rs[0] case Ok(bytes) => bytes case Err(_) => []) + Delivered(rs[1..])
  }

  /** With safe hints only, no call reports a too small buffer and the delivered bytes alone are
      the stretch that was read. */
  lemma {:induction false} SafeHintsLoseNothing(w: Wire, calls: seq<Call>)
    requires w.Valid() && forall i :: 0 <= i < |calls| ==> SafeHint(calls[i].hint)
    ensures forall i :: 0 <= i < |calls| ==> Results(w, calls)[i].Ok? || Results(w, calls)[i].error == Io
    ensures Delivered(Results(w, calls)) == w.incoming[w.consumed..End(w, calls).consumed]
    decreases |calls|
  {
    if calls != [] {
      var w', end := w.After(calls[0].read), End(w, calls).consumed;
      SafeHintsLoseNothing(w', calls[1..]);
      assert w.incoming[w.consumed..end] == w.Segment(calls[0].read) + w.incoming[w'.consumed..end];
    }
  }
}
