/** The event side of the library: `EventMonitor` opens the event interface
  * (usage page 0xFF42, usage 0x0002), and its read loop turns every completed
  * read into a `HeadsetEvent` for the callback. The outcome of each read, of
  * opening the device and of creating the wait event and the thread come from
  * the operating system and are inputs here. */
module EventMonitoring {
  import opened Bytes
  import opened HeadsetEvents
  import opened Devices

  /** `sizeof(m_buffer)`: the read asks for up to 65 bytes. */
  const ReadBufferSize: nat := 65

  /** What one read of the loop ends with. */
  datatype ReadOutcome =
      /** The read completed, at once or after the wait, with these bytes. */
    | Completed(bytes: seq<byte>)
      /** The read failed outright, or its overlapped result could not be
        * fetched: nothing is delivered and the loop goes on. */
    | NoData
      /** The one-second wait ran out: the read is cancelled and the loop goes on. */
    | TimedOut
      /** The wait itself failed: the loop ends. */
    | WaitFailed

  /** A read never returns more bytes than it was asked for. */
  predicate WellFormed(o: ReadOutcome)
  {
    o.Completed? ==> |o.bytes| <= ReadBufferSize
  }

  predicate AllWellFormed(outcomes: seq<ReadOutcome>)
  {
    forall k :: 0 <= k < |outcomes| ==> WellFormed(outcomes[k])
  }

  function Min(a: nat, b: nat): nat
  {
    if a < b then a else b
  }

  /** The event as the read loop builds it, with the copy written as
    * `memcpy(event.data, m_buffer, bytesRead)`: a read of more than 64 bytes
    * overruns the 64-byte `data` array, which is undefined behaviour and
    * shown as `None`. The bytes of `data` past the read are left
    * uninitialised in the source; the model holds zeros there (see
    * `AccessorsIgnoreBytesPastRead`). */
  function CaptureAsWritten(bytes: seq<byte>): Option<HeadsetEvent>
    requires 0 < |bytes| <= ReadBufferSize
  {
    if |bytes| > ReportSize then None
    else Some(HeadsetEvent(bytes[0], Pad(bytes), |bytes|))
  }

  /** The 65-byte read buffer can be filled completely, and a full read cannot
    * be copied into the event: a battery report read together with its
    * trailing padding, 65 bytes long, overruns `data`. */
  lemma FullReadOverflows()
    ensures var bytes := [0x03, 0x01, 0x01, 0x0F, 0x00, 0xB2, 0x02] + Zeros(58);
      |bytes| == ReadBufferSize && CaptureAsWritten(bytes).None?
  {
  }

  /** The copy bounded by the size of `data`: at most 64 bytes are copied and
    * `dataSize` is the number copied. The type is the first byte read. */
  function Capture(bytes: seq<byte>): (e: HeadsetEvent)
    requires 0 < |bytes| <= ReadBufferSize
    ensures e.eventType == bytes[0]
    ensures e.dataSize == Min(|bytes|, ReportSize) && 0 < e.dataSize <= ReportSize
    ensures e.data[..e.dataSize] == bytes[..e.dataSize]
    ensures forall i :: e.dataSize <= i < ReportSize ==> e.data[i] == 0
  {
    var n := Min(|bytes|, ReportSize);
    HeadsetEvent(bytes[0], Pad(bytes[..n]), n)
  }

  /** Wherever the copy as written is defined, the bounded copy builds the
    * same event. */
  lemma CaptureAgreesWithinBounds(bytes: seq<byte>)
    requires 0 < |bytes| <= ReadBufferSize
    ensures CaptureAsWritten(bytes).Some? <==> |bytes| <= ReportSize
    ensures |bytes| <= ReportSize ==> CaptureAsWritten(bytes) == Some(Capture(bytes))
  {
    if |bytes| <= ReportSize {
      assert bytes[..|bytes|] == bytes;
    }
  }

  /** No accessor of `HeadsetEvent` reads `data` past `dataSize`, so what the
    * uninitialised rest of `data` holds cannot be observed. */
  lemma AccessorsIgnoreBytesPastRead(e: HeadsetEvent, f: HeadsetEvent)
    requires e.eventType == f.eventType && e.dataSize == f.dataSize <= ReportSize
    requires e.data[..e.dataSize] == f.data[..f.dataSize]
    ensures ActualEventType(e) == ActualEventType(f)
    ensures IsMuted(e) == IsMuted(f) && IsUnmuted(e) == IsUnmuted(f)
    ensures BatteryLevelRaw(e) == BatteryLevelRaw(f) && BatteryLevel(e) == BatteryLevel(f)
    ensures IsCharging(e) == IsCharging(f)
    ensures Description(e) == Description(f)
  {
    assert forall i :: 0 <= i < e.dataSize ==> e.data[i] == e.data[..e.dataSize][i];
    assert forall i :: 0 <= i < f.dataSize ==> f.data[i] == f.data[..f.dataSize][i];
    if e.dataSize >= 4 && e.data[0] == EventPacket && e.data[3] == BatteryCode && e.dataSize >= 7 {
      assert Value16(e) == Value16(f);
    }
  }

  /** The events the read loop hands to the callback for a run of read
    * outcomes: one per completed non-empty read while a callback is set,
    * nothing from a failed wait on. */
  function Deliveries(outcomes: seq<ReadOutcome>, withCallback: bool): seq<HeadsetEvent>
    requires AllWellFormed(outcomes)
  {
    if |outcomes| == 0 then []
    else
      match outcomes[0]
      case WaitFailed => []
      case Completed(bytes) =>
        (if |bytes| > 0 && withCallback then [Capture(bytes)] else []) + Deliveries(outcomes[1..], withCallback)
      case _ => Deliveries(outcomes[1..], withCallback)
  }

  /** Every delivered event fits `data`, is the capture of a completed read,
    * and there are never more events than reads; without a callback nothing
    * is delivered. */
  lemma {:induction false} DeliveriesAreCaptures(outcomes: seq<ReadOutcome>, withCallback: bool)
    requires AllWellFormed(outcomes)
    ensures |Deliveries(outcomes, withCallback)| <= |outcomes|
    ensures !withCallback ==> Deliveries(outcomes, withCallback) == []
    ensures forall e :: e in Deliveries(outcomes, withCallback) ==>
      0 < e.dataSize <= ReportSize &&
      exists k :: 0 <= k < |outcomes| && outcomes[k].Completed? && |outcomes[k].bytes| > 0
        && e == Capture(outcomes[k].bytes)
  {
    if |outcomes| > 0 && !outcomes[0].WaitFailed? {
      var rest := outcomes[1..];
      assert AllWellFormed(rest) by {
        forall k | 0 <= k < |rest| ensures WellFormed(rest[k]) {
          assert rest[k] == outcomes[k + 1];
        }
      }
      DeliveriesAreCaptures(rest, withCallback);
      forall e | e in Deliveries(rest, withCallback)
        ensures exists k ::
          0 <= k < |outcomes| && outcomes[k].Completed? && |outcomes[k].bytes| > 0 && e == Capture(outcomes[k].bytes)
      {
        var k :| 0 <= k < |rest| && rest[k].Completed? && |rest[k].bytes| > 0 && e == Capture(rest[k].bytes);
        assert outcomes[k + 1] == rest[k];
      }
    }
  }

  /** The event the read loop builds from the buffer after a read of
    * `bytes`, with the copy bounded by the size of `data`. */
  method CaptureFrom(buffer: array<byte>, n: nat, ghost bytes: seq<byte>) returns (e: HeadsetEvent)
    requires 0 < n == |bytes| <= buffer.Length && buffer[..n] == bytes
    requires n <= ReadBufferSize
    ensures e == Capture(bytes)
  {
    var count := if n < ReportSize then n else ReportSize;
    var data := new byte[ReportSize](_ => 0);
    var i := 0;
    while i < count
      invariant 0 <= i <= count
      invariant data[..i] == bytes[..i]
      invariant forall j :: i <= j < ReportSize ==> data[j] == 0
    {
      data[i] := buffer[i];
      i := i + 1;
    }
    assert data[..] == data[..count] + data[count..];
    assert data[count..] == Zeros(ReportSize - count);
    e := HeadsetEvent(buffer[0], data[..], count);
  }

  class EventMonitor {
    /** `m_device != INVALID_HANDLE_VALUE`. */
    var connected: bool
    /** `m_overlapped.hEvent != nullptr`. */
    var hasEvent: bool
    /** `m_running`. */
    var running: bool
    /** Whether `m_callback` holds a function. */
    var hasCallback: bool
    /** `m_buffer`, which every read fills from the front. */
    const buffer: array<byte>
    /** Every event handed to the callback, oldest first. */
    ghost var delivered: seq<HeadsetEvent>

    /** The wait event exists exactly while the device is open, and only an
      * open device is monitored. */
    ghost predicate Valid()
      reads this
    {
      buffer.Length == ReadBufferSize && hasEvent == connected && (running ==> connected)
    }

    constructor()
      ensures Valid() && fresh(buffer)
      ensures !connected && !running && !hasCallback && delivered == []
      ensures buffer[..] == Zeros(ReadBufferSize)
    {
      connected := false;
      hasEvent := false;
      running := false;
      hasCallback := false;
      buffer := new byte[ReadBufferSize](_ => 0);
      delivered := [];
    }

    /** `connect`: closes a previous connection, looks for the event interface
      * among the devices listed for `vid`/`pid`, opens it and creates the wait
      * event; a failure to create the event closes the device again.
      * `openOk` is whether `OpenHIDDevice` succeeds on the interface found,
      * `eventCreated` whether `CreateEvent` succeeds. */
    method Connect(system: seq<SystemDevice>, vid: u16, pid: u16, openOk: bool, eventCreated: bool)
      returns (r: bool)
      requires Valid()
      modifies this
      ensures Valid() && r == connected && !running
      ensures r == (FirstWithUsage(Enumerated(system, vid, pid), RgbUsagePage, EventUsage).Some? && openOk && eventCreated)
      ensures hasCallback == old(hasCallback) && delivered == old(delivered)
    {
      if connected {
        Disconnect();
      }
      var found, info := FindDeviceByUsage(system, vid, pid, RgbUsagePage, EventUsage, NoDevice);
      if !found {
        return false;
      }
      if !openOk {
        return false;
      }
      connected := true;
      if !eventCreated {
        connected := false;
        return false;
      }
      hasEvent := true;
      return true;
    }

    /** `disconnect`: stops monitoring, closes the wait event and the device. */
    method Disconnect()
      requires Valid()
      modifies this
      ensures Valid() && !connected && !hasEvent && !running
      ensures hasCallback == old(hasCallback) && delivered == old(delivered)
    {
      StopMonitoring();
      if hasEvent {
        hasEvent := false;
      }
      if connected {
        connected := false;
      }
    }

    /** `startMonitoring`: refused when not connected or already running;
      * otherwise stores the callback and starts the read thread;
      * `threadCreated` is whether `CreateThread` succeeds. */
    method StartMonitoring(withCallback: bool, threadCreated: bool) returns (r: bool)
      requires Valid()
      modifies this
      ensures Valid()
      ensures !old(connected) || old(running) ==> !r && running == old(running) && hasCallback == old(hasCallback)
      ensures old(connected) && !old(running) ==> running == r == threadCreated && hasCallback == withCallback
      ensures connected == old(connected) && delivered == old(delivered)
    {
      if !connected {
        return false;
      }
      if running {
        return false;
      }
      hasCallback := withCallback;
      running := true;
      if !threadCreated {
        running := false;
        return false;
      }
      return true;
    }

    /** `stopMonitoring`. */
    method StopMonitoring()
      requires Valid()
      modifies this
      ensures Valid() && !running
      ensures connected == old(connected) && hasCallback == old(hasCallback) && delivered == old(delivered)
    {
      if running {
        running := false;
      }
    }

    /** One pass of `readLoop`: the read fills the buffer from the front, and
      * a completed non-empty read is copied, at most 64 bytes, into a fresh
      * event for the callback. `go` says whether the loop goes on. */
    method ReadStep(outcome: ReadOutcome) returns (go: bool)
      requires Valid() && running && WellFormed(outcome)
      modifies this, buffer
      ensures Valid() && running && connected == old(connected) && hasCallback == old(hasCallback)
      ensures go == !outcome.WaitFailed?
      ensures delivered == old(delivered) + Deliveries([outcome], hasCallback)
      ensures outcome.Completed? ==>
        buffer[..|outcome.bytes|] == outcome.bytes && buffer[|outcome.bytes|..] == old(buffer[|outcome.bytes|..])
      ensures !outcome.Completed? ==> buffer[..] == old(buffer[..])
    {
      match outcome {
        case WaitFailed =>
          return false;
        case NoData =>
          return true;
        case TimedOut =>
          return true;
        case Completed(bytes) =>
          var n := |bytes|;
          forall i | 0 <= i < n {
            buffer[i] := bytes[i];
          }
          assert buffer[..n] == bytes;
          assert buffer[n..] == old(buffer[n..]);
          if n > 0 && hasCallback {
            var e := CaptureFrom(buffer, n, bytes);
            assert [e] == Deliveries([outcome], hasCallback);
            delivered := delivered + [e];
          } else {
            assert Deliveries([outcome], hasCallback) == [];
          }
          return true;
      }
    }

    /** `readLoop` over the outcomes of successive reads: it runs until the
      * outcomes are used up (another thread cleared `m_running`) or a wait
      * fails. A failed wait ends the loop but leaves `running` set. */
    method ReadLoop(outcomes: seq<ReadOutcome>)
      requires Valid() && running && AllWellFormed(outcomes)
      modifies this, buffer
      ensures Valid() && running && connected == old(connected) && hasCallback == old(hasCallback)
      ensures delivered == old(delivered) + Deliveries(outcomes, hasCallback)
    {
      var i := 0;
      while i < |outcomes|
        invariant 0 <= i <= |outcomes|
        invariant Valid() && running && connected == old(connected) && hasCallback == old(hasCallback)
        invariant AllWellFormed(outcomes[i..])
        invariant old(delivered) + Deliveries(outcomes, hasCallback) == delivered + Deliveries(outcomes[i..], hasCallback)
      {
        var o := outcomes[i];
        assert outcomes[i..][0] == o;
        assert outcomes[i..][1..] == outcomes[i + 1..];
        var go := ReadStep(o);
        if !go {
          return;
        }
        i := i + 1;
      }
    }
  }
}
