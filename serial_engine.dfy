/**
 * The serial communication object: its event listener registry, the
 * guard on opening the port, line-framed sending, and the three card
 * commands, each waiting for its reply chunk by chunk. The reply chunks,
 * the times they arrive at and what the host does when a port is
 * requested are inputs.
 */
module SerialEngine {
  import opened Wrappers
  import opened JsString
  import opened CardData
  import opened SerialProtocol

  // ---------------------------------------------------------------------
  // Listener lists
  // ---------------------------------------------------------------------

  /** A callback, by identity: JavaScript compares functions by reference. */
  type Callback = nat

  /** One call `callback(data)` made while an event is dispatched. */
  datatype Invocation = Invocation(callback: Callback, data: string)

  const DataReceived: string := "data-received"

  /** `list.indexOf(x)`: the first position of `x`, or -1. */
  function IndexOf(list: seq<Callback>, x: Callback): (i: int)
    ensures i == -1 <==> x !in list
    ensures i != -1 ==> 0 <= i < |list| && list[i] == x && forall j | 0 <= j < i :: list[j] != x
  {
    if list == [] then -1
    else if list[0] == x then 0
    else
      var rest := IndexOf(list[1..], x);
      if rest == -1 then -1 else rest + 1
  }

  /** `list.splice(list.indexOf(x), 1)` when `x` is present: the first occurrence goes, later ones stay. */
  function RemoveFirst(list: seq<Callback>, x: Callback): (r: seq<Callback>)
    ensures x !in list ==> r == list
    ensures x in list ==> |r| == |list| - 1 && multiset(r) == multiset(list) - multiset{x}
    ensures x in list ==> var i := IndexOf(list, x); r == list[..i] + list[i + 1..]
  {
    var i := IndexOf(list, x);
    if i == -1 then list
    else
      assert list == list[..i] + [x] + list[i + 1..];
      list[..i] + list[i + 1..]
  }

  /** The calls a dispatch makes: every callback of the list, in list order, with the event's data. */
  function Invocations(list: seq<Callback>, data: string): (calls: seq<Invocation>)
    ensures |calls| == |list|
    ensures forall i | 0 <= i < |list| :: calls[i] == Invocation(list[i], data)
  {
    if list == [] then [] else [Invocation(list[0], data)] + Invocations(list[1..], data)
  }

  /** The registry after `addEventListener`: the list is created when missing and the callback appended, duplicates kept. */
  function WithListener(listeners: map<string, seq<Callback>>, eventName: string, callback: Callback): (r: map<string, seq<Callback>>)
    ensures r.Keys == listeners.Keys + {eventName}
    ensures r[eventName] == (if eventName in listeners then listeners[eventName] else []) + [callback]
    ensures forall e | e in listeners && e != eventName :: r[e] == listeners[e]
  {
    var list := if eventName in listeners then listeners[eventName] else [];
    listeners[eventName := list + [callback]]
  }

  /** The registry after `removeEventListener`: an unknown event is left alone, and so is an absent callback. */
  function WithoutListener(listeners: map<string, seq<Callback>>, eventName: string, callback: Callback): (r: map<string, seq<Callback>>)
    ensures r.Keys == listeners.Keys
    ensures forall e | e in listeners && e != eventName :: r[e] == listeners[e]
    ensures eventName in listeners ==> r[eventName] == RemoveFirst(listeners[eventName], callback)
    ensures eventName in listeners && callback in listeners[eventName] <==> r != listeners
  {
    if eventName !in listeners then listeners
    else
      var list := listeners[eventName];
      if callback in list then
        var r := listeners[eventName := RemoveFirst(list, callback)];
        assert r[eventName] != list;
        r
      else listeners
  }

  /** A callback added and then removed from a list that did not hold it leaves the list as it was. */
  lemma AddThenRemove(listeners: map<string, seq<Callback>>, eventName: string, callback: Callback)
    requires eventName in listeners && callback !in listeners[eventName]
    ensures WithoutListener(WithListener(listeners, eventName, callback), eventName, callback) == listeners
  {
    var list := listeners[eventName];
    assert IndexOf(list + [callback], callback) == |list| by {
      assert (list + [callback])[|list|] == callback;
    }
    assert (list + [callback])[..|list|] == list;
    assert (list + [callback])[|list| + 1..] == [];
    assert RemoveFirst(list + [callback], callback) == list;
    assert listeners[eventName := list] == listeners;
  }

  /**
   * Adding a callback that is already listed and then removing it does not
   * restore the list: the earlier copy goes and the new one stays at the
   * end.
   */
  lemma AddThenRemoveDuplicate(listeners: map<string, seq<Callback>>, eventName: string, callback: Callback)
    requires eventName in listeners && callback in listeners[eventName]
    ensures var list := listeners[eventName];
      WithoutListener(WithListener(listeners, eventName, callback), eventName, callback)[eventName]
      == RemoveFirst(list, callback) + [callback]
  {
    var list := listeners[eventName];
    var i := IndexOf(list, callback);
    assert IndexOf(list + [callback], callback) == i by {
      var k := IndexOf(list + [callback], callback);
      assert (list + [callback])[i] == callback;
    }
    assert (list + [callback])[..i] == list[..i];
    assert (list + [callback])[i + 1..] == list[i + 1..] + [callback];
  }

  /** After `addEventListener`, a dispatch of that event makes the calls it made before and then calls the new callback. */
  lemma DispatchAfterAdd(listeners: map<string, seq<Callback>>, eventName: string, callback: Callback, data: string)
    ensures Invocations(WithListener(listeners, eventName, callback)[eventName], data)
      == Invocations(if eventName in listeners then listeners[eventName] else [], data) + [Invocation(callback, data)]
  {
  }

  // ---------------------------------------------------------------------
  // Opening the port
  // ---------------------------------------------------------------------

  /** `openPort`'s option object; an absent property takes its default. */
  datatype OpenOptions = OpenOptions(baudRate: Option<int>, parity: Option<string>, dataBits: Option<int>, stopBits: Option<int>)

  /** The settings a port is opened with. */
  datatype PortSettings = PortSettings(baudRate: int, parity: string, dataBits: int, stopBits: int)

  /** The destructuring defaults: 115200 baud, no parity, 8 data bits, 1 stop bit. */
  function Settings(options: OpenOptions): (s: PortSettings)
    ensures options == OpenOptions(None, None, None, None) ==> s == PortSettings(115200, "none", 8, 1)
    ensures s.baudRate == if options.baudRate.Some? then options.baudRate.value else 115200
    ensures s.parity == if options.parity.Some? then options.parity.value else "none"
    ensures s.dataBits == if options.dataBits.Some? then options.dataBits.value else 8
    ensures s.stopBits == if options.stopBits.Some? then options.stopBits.value else 1
  {
    PortSettings(
      if options.baudRate.Some? then options.baudRate.value else 115200,
      if options.parity.Some? then options.parity.value else "none",
      if options.dataBits.Some? then options.dataBits.value else 8,
      if options.stopBits.Some? then options.stopBits.value else 1)
  }

  /** What the host does with `requestPort()` and `port.open(...)`. */
  datatype HostOpen = Opened | RequestRejected | OpenFailed

  /** One reply chunk and the time, in milliseconds, it arrives at. */
  datatype Arrival = Arrival(chunk: string, atMs: int)

  /**
   * How many arrivals come before the first one at or after `deadline`;
   * a chunk arriving in the same millisecond as a timer comes after it.
   */
  function ArrivedBefore(arrivals: seq<Arrival>, deadline: int): (n: nat)
    ensures n <= |arrivals|
    ensures forall i | 0 <= i < n :: arrivals[i].atMs < deadline
    ensures n < |arrivals| ==> arrivals[n].atMs >= deadline
  {
    if arrivals == [] || arrivals[0].atMs >= deadline then 0
    else 1 + ArrivedBefore(arrivals[1..], deadline)
  }

  function Texts(arrivals: seq<Arrival>): (r: seq<string>)
    ensures |r| == |arrivals| && forall i | 0 <= i < |arrivals| :: r[i] == arrivals[i].chunk
  {
    if arrivals == [] then [] else [arrivals[0].chunk] + Texts(arrivals[1..])
  }

  // ---------------------------------------------------------------------
  // The RBK reply handler
  // ---------------------------------------------------------------------

  /**
   * The state `readCardData` keeps while it waits for the block: the
   * text received, whether the read is over, the time of the last
   * chunk, and the value the returned promise settled with (a promise
   * keeps the first value it is resolved with).
   */
  class ReadBlockRequest {
    var dataBuffer: string
    var isComplete: bool
    var lastDataTime: int
    var settled: Option<Option<string>>

    /**
     * A finished read has settled; an unfinished one holds a buffer that
     * would still be pending on arrival; a block read out is the first
     * block of the buffer, which no longer grows.
     */
    predicate Valid()
      reads this
    {
      && (isComplete ==> settled.Some?)
      && (!isComplete ==> RbkCheck(dataBuffer, 0).Pending?)
      && (settled.Some? && settled.value.Some? ==> isComplete && MatchBlock(dataBuffer) == settled.value)
    }

    constructor(nowMs: int)
      ensures dataBuffer == "" && !isComplete && lastDataTime == nowMs && settled == None
      ensures Valid()
    {
      dataBuffer := "";
      isComplete := false;
      lastDataTime := nowMs;
      settled := None;
      assert !Contains("", BlockMarker) && !Contains("", ReadFailMarker);
    }

    /** `resolve(value)`: only the first call counts. */
    method Resolve(value: Option<string>)
      modifies this
      ensures settled == if old(settled).None? then Some(value) else old(settled)
      ensures dataBuffer == old(dataBuffer) && isComplete == old(isComplete) && lastDataTime == old(lastDataTime)
    {
      if settled.None? {
        settled := Some(value);
      }
    }

    /** `checkComplete()`, at time `nowMs`: ends the read on a verdict and reports whether it did. */
    method CheckComplete(nowMs: int) returns (done: bool)
      modifies this
      ensures var v := RbkCheck(old(dataBuffer), nowMs - old(lastDataTime));
        && done == !v.Pending?
        && (done ==> isComplete && settled == if old(settled).None? then RbkResult(v) else old(settled))
        && (!done ==> isComplete == old(isComplete) && settled == old(settled))
      ensures dataBuffer == old(dataBuffer) && lastDataTime == old(lastDataTime)
    {
      if Contains(dataBuffer, BlockMarker) {
        var found := MatchBlock(dataBuffer);
        if found.Some? {
          isComplete := true;
          Resolve(found);
          return true;
        }
      } else if Contains(dataBuffer, ReadFailMarker) {
        isComplete := true;
        Resolve(None);
        return true;
      }
      if nowMs - lastDataTime > StallMs {
        isComplete := true;
        Resolve(None);
        return true;
      }
      return false;
    }

    /**
     * The replaced `onDataReceived`: ignored once the read is over;
     * otherwise the chunk is appended, its arrival time noted and the
     * buffer checked at once, with a recheck scheduled when that check
     * found nothing.
     */
    method OnData(chunk: string, nowMs: int) returns (recheckScheduled: bool)
      requires Valid()
      modifies this
      ensures Valid()
      ensures old(isComplete) ==>
        && !recheckScheduled && dataBuffer == old(dataBuffer)
        && isComplete && lastDataTime == old(lastDataTime) && settled == old(settled)
      ensures !old(isComplete) ==>
        && dataBuffer == old(dataBuffer) + chunk && lastDataTime == nowMs
        && recheckScheduled == RbkCheck(dataBuffer, 0).Pending?
        && isComplete == !recheckScheduled
        && (isComplete && old(settled).None? ==> settled == RbkDecide(dataBuffer))
        && (old(settled).Some? ==> settled == old(settled))
        && (recheckScheduled ==> settled == old(settled))
    {
      if isComplete {
        return false;
      }
      dataBuffer := dataBuffer + chunk;
      lastDataTime := nowMs;
      var done := CheckComplete(nowMs);
      recheckScheduled := !done;
    }

    /** The recheck scheduled 100 ms after a chunk: a no-op once the read is over. */
    method DelayedCheck(nowMs: int)
      requires Valid()
      modifies this
      ensures Valid()
      ensures dataBuffer == old(dataBuffer) && lastDataTime == old(lastDataTime)
      ensures old(isComplete) ==> isComplete && settled == old(settled)
      ensures !old(isComplete) && nowMs - lastDataTime <= StallMs ==> !isComplete && settled == old(settled)
      ensures !old(isComplete) && nowMs - lastDataTime > StallMs ==>
        isComplete && settled == (if old(settled).None? then Some(None) else old(settled))
    {
      if !isComplete {
        RbkRecheckAgrees(dataBuffer, 0);
        if nowMs - lastDataTime <= StallMs {
          RbkRecheckAgrees(dataBuffer, nowMs - lastDataTime);
        }
        var _ := CheckComplete(nowMs);
      }
    }

    /** The 10 s timer: settles with null, and leaves `isComplete` as it was. */
    method Expire()
      requires Valid()
      modifies this
      ensures Valid()
      ensures settled == (if old(settled).None? then Some(None) else old(settled))
      ensures dataBuffer == old(dataBuffer) && isComplete == old(isComplete) && lastDataTime == old(lastDataTime)
    {
      Resolve(None);
    }
  }

  // ---------------------------------------------------------------------
  // The communication object
  // ---------------------------------------------------------------------

  class SerialCommunication {
    /** `this.port !== null` */
    var hasPort: bool
    /** `this.port.readable && this.port.writable`: the port is open. */
    var portReady: bool
    /** `this.writer !== null` */
    var hasWriter: bool
    /** The settings the port was last opened with. */
    var settings: Option<PortSettings>
    /** `_eventListeners` */
    var listeners: map<string, seq<Callback>>
    /** The framed texts handed to the writer, oldest first. */
    var sent: seq<string>

    predicate Valid()
      reads this
    {
      DataReceived in listeners && (portReady ==> hasPort && hasWriter)
    }

    constructor()
      ensures Valid()
      ensures !hasPort && !portReady && !hasWriter && settings == None
      ensures listeners == map[DataReceived := []] && sent == []
    {
      hasPort := false;
      portReady := false;
      hasWriter := false;
      settings := None;
      listeners := map[DataReceived := []];
      sent := [];
    }

    /** `addEventListener(eventName, callback)` */
    method AddEventListener(eventName: string, callback: Callback)
      requires Valid()
      modifies this
      ensures Valid()
      ensures listeners == WithListener(old(listeners), eventName, callback)
      ensures hasPort == old(hasPort) && portReady == old(portReady) && hasWriter == old(hasWriter)
      ensures settings == old(settings) && sent == old(sent)
    {
      if eventName !in listeners {
        listeners := listeners[eventName := []];
      }
      listeners := listeners[eventName := listeners[eventName] + [callback]];
    }

    /** `removeEventListener(eventName, callback)` */
    method RemoveEventListener(eventName: string, callback: Callback)
      requires Valid()
      modifies this
      ensures Valid()
      ensures listeners == WithoutListener(old(listeners), eventName, callback)
      ensures hasPort == old(hasPort) && portReady == old(portReady) && hasWriter == old(hasWriter)
      ensures settings == old(settings) && sent == old(sent)
    {
      if eventName !in listeners {
        return;
      }
      var index := IndexOf(listeners[eventName], callback);
      if index != -1 {
        var list := listeners[eventName];
        assert list[..index] + list[index + 1..] == RemoveFirst(list, callback);
        listeners := listeners[eventName := list[..index] + list[index + 1..]];
      }
    }

    /** `dispatchEvent(eventName, data)`: the calls made, in order. */
    method DispatchEvent(eventName: string, data: string) returns (calls: seq<Invocation>)
      ensures eventName !in listeners ==> calls == []
      ensures eventName in listeners ==> calls == Invocations(listeners[eventName], data)
    {
      calls := [];
      if eventName !in listeners {
        return;
      }
      var list := listeners[eventName];
      for i := 0 to |list|
        invariant |calls| == i
        invariant forall k | 0 <= k < i :: calls[k] == Invocation(list[k], data)
      {
        calls := calls + [Invocation(list[i], data)];
      }
    }

    /** The default `onDataReceived`: a `data-received` event with the chunk. */
    method OnDataReceived(data: string) returns (calls: seq<Invocation>)
      requires Valid()
      ensures calls == Invocations(listeners[DataReceived], data)
    {
      calls := DispatchEvent(DataReceived, data);
    }

    /**
     * `openPort(options)`: refused while the port is open; otherwise the
     * host is asked for a port, which is kept even when opening it fails,
     * and on success the writer is set up.
     */
    method OpenPort(options: OpenOptions, host: HostOpen) returns (ok: bool)
      requires Valid()
      modifies this
      ensures Valid()
      ensures ok <==> !(old(hasPort) && old(portReady)) && host == Opened
      ensures old(hasPort) && old(portReady) ==>
        hasPort && portReady && hasWriter == old(hasWriter) && settings == old(settings)
      ensures !(old(hasPort) && old(portReady)) ==> match host
        case Opened => hasPort && portReady && hasWriter && settings == Some(Settings(options))
        case RequestRejected => hasPort == old(hasPort) && portReady == old(portReady) && hasWriter == old(hasWriter) && settings == old(settings)
        case OpenFailed => hasPort && !portReady && hasWriter == old(hasWriter) && settings == old(settings)
      ensures listeners == old(listeners) && sent == old(sent)
    {
      if hasPort && portReady {
        return false;
      }
      match host
      case RequestRejected =>
        ok := false;
      case OpenFailed =>
        hasPort := true;
        portReady := false;
        ok := false;
      case Opened =>
        hasPort := true;
        portReady := true;
        settings := Some(Settings(options));
        hasWriter := true;
        ok := true;
    }

    /**
     * `sendData(data)`: false without a writer; otherwise the framed text
     * goes to the writer and the result is whether the write succeeded.
     */
    method SendData(data: string, writeOk: bool) returns (ok: bool)
      modifies this
      ensures ok <==> old(hasWriter) && writeOk
      ensures sent == if old(hasWriter) then old(sent) + [Frame(data)] else old(sent)
      ensures hasPort == old(hasPort) && portReady == old(portReady) && hasWriter == old(hasWriter)
      ensures settings == old(settings) && listeners == old(listeners)
    {
      if !hasWriter {
        return false;
      }
      sent := sent + [Frame(data)];
      ok := writeOk;
    }

    /**
     * `readCardId()`, over the chunks each attempt receives before its
     * 1000 ms timer; every attempt, the first included, starts by sending
     * `RID`. Whether that write succeeds is not looked at.
     */
    method ReadCardId(attempts: seq<seq<string>>, writeOk: bool) returns (r: RidOutcome)
      requires attempts != []
      modifies this
      ensures !(old(hasPort) && old(hasWriter)) ==> r == Resolved(None) && sent == old(sent)
      ensures old(hasPort) && old(hasWriter) ==> r == ReadCardIdAsWritten(attempts) && |old(sent)| < |sent|
      ensures |old(sent)| <= |sent| <= |old(sent)| + |attempts| && sent[..|old(sent)|] == old(sent)
      ensures forall i | |old(sent)| <= i < |sent| :: sent[i] == Frame(RidCommand)
      ensures old(hasPort) && old(hasWriter) && r.Resolved? ==> FirstAnswerAt(attempts, |sent| - |old(sent)| - 1, r.cardId)
      ensures r.StillWaiting? ==> |sent| == |old(sent)| + |attempts|
      ensures hasPort == old(hasPort) && portReady == old(portReady) && hasWriter == old(hasWriter)
      ensures settings == old(settings) && listeners == old(listeners)
    {
      if !hasPort || !hasWriter {
        return Resolved(None);
      }
      var a := 0;
      while a < |attempts|
        invariant 0 <= a <= |attempts|
        invariant forall j | 0 <= j < a :: Silent(attempts[j])
        invariant |sent| == |old(sent)| + a && sent[..|old(sent)|] == old(sent)
        invariant forall i | |old(sent)| <= i < |sent| :: sent[i] == Frame(RidCommand)
        invariant hasPort && hasWriter && portReady == old(portReady)
        invariant settings == old(settings) && listeners == old(listeners)
      {
        var _ := SendData(RidCommand, writeOk);
        var verdict := AwaitCardId(attempts[a]);
        if verdict.Some? {
          AsWrittenTakesFirstAnswer(attempts, a, verdict.value);
          return Resolved(verdict.value);
        }
        assert Silent(attempts[a]);
        // The timer fires with this call's retryCount, which is 0: it retries by calling readCardId afresh.
        a := a + 1;
      }
      SilentDeviceAsWritten(attempts);
      r := StillWaiting;
    }

    /**
     * `readCardData()`: sends `RBK`, then feeds each chunk to the reply
     * handler at its arrival time, with the recheck 100 ms later. The
     * 10 s timer settles with null if nothing settled before it fires;
     * chunks that arrive later still reach the handler but cannot change
     * the result.
     */
    method ReadCardData(arrivals: seq<Arrival>, startMs: int, writeOk: bool) returns (r: Option<string>)
      modifies this
      ensures !(old(hasPort) && old(hasWriter)) ==> r == None && sent == old(sent)
      ensures old(hasPort) && old(hasWriter) ==>
        && r == ReadBlockResult(Texts(arrivals[..ArrivedBefore(arrivals, startMs + AbsoluteTimeoutMs)]))
        && sent == old(sent) + [Frame(RbkCommand)]
      ensures hasPort == old(hasPort) && portReady == old(portReady) && hasWriter == old(hasWriter)
      ensures settings == old(settings) && listeners == old(listeners)
    {
      if !hasPort || !hasWriter {
        return None;
      }
      var _ := SendData(RbkCommand, writeOk);
      var inTime := ArrivedBefore(arrivals, startMs + AbsoluteTimeoutMs);
      var chunks := Texts(arrivals[..inTime]);
      var request := new ReadBlockRequest(startMs);
      for i := 0 to |arrivals|
        invariant request.Valid()
        invariant i <= inTime && !request.isComplete ==>
          && request.settled == None
          && Accumulate(RbkDecide, "", chunks) == Accumulate(RbkDecide, request.dataBuffer, chunks[i..])
        invariant i <= inTime && request.isComplete ==> request.settled == Accumulate(RbkDecide, "", chunks)
        invariant i > inTime ==> request.settled == Some(ReadBlockResult(chunks))
        invariant sent == old(sent) + [Frame(RbkCommand)]
        invariant hasPort == old(hasPort) && portReady == old(portReady) && hasWriter == old(hasWriter)
        invariant settings == old(settings) && listeners == old(listeners)
      {
        if i == inTime {
          // the 10 s timer fires before this chunk arrives
          assert chunks[i..] == [];
          request.Expire();
        } else if i < inTime {
          assert chunks[i..][1..] == chunks[i + 1..];
        }
        var arrival := arrivals[i];
        var recheck := request.OnData(arrival.chunk, arrival.atMs);
        if recheck {
          request.DelayedCheck(arrival.atMs + RecheckDelayMs);
        }
      }
      if inTime == |arrivals| {
        assert chunks[|arrivals|..] == [];
      }
      request.Expire();
      r := request.settled.value;
    }

    /**
     * `writeCardData(data)`: false without a port and writer, or when the
     * data is not 32 upper-case hexadecimal digits, in both cases before
     * anything is sent; otherwise `WBK` and the data are sent and the
     * reply checked chunk by chunk; no verdict by the 10 s timer is false.
     */
    method WriteCardData(data: string, chunks: seq<string>, writeOk: bool) returns (ok: bool)
      modifies this
      ensures ok <==> old(hasPort) && old(hasWriter) && IsWireRecord(data)
                      && Accumulate(WbkCheck, "", chunks) == Some(true)
      ensures sent == if old(hasPort) && old(hasWriter) && IsWireRecord(data)
                      then old(sent) + [Frame(WbkCommand(data))] else old(sent)
      ensures hasPort == old(hasPort) && portReady == old(portReady) && hasWriter == old(hasWriter)
      ensures settings == old(settings) && listeners == old(listeners)
    {
      if !hasPort || !hasWriter {
        return false;
      }
      if !WriteDataValid(data) {
        return false;
      }
      var _ := SendData(WbkCommand(data), writeOk);
      var buffer := "";
      var verdict: Option<bool> := None;
      var i := 0;
      while i < |chunks| && verdict.None?
        invariant 0 <= i <= |chunks|
        invariant verdict.None? ==> Accumulate(WbkCheck, "", chunks) == Accumulate(WbkCheck, buffer, chunks[i..])
        invariant verdict.Some? ==> verdict == Accumulate(WbkCheck, "", chunks)
      {
        assert chunks[i..][1..] == chunks[i + 1..];
        buffer := buffer + chunks[i];
        if Contains(buffer, WriteOkCode) && Contains(buffer, WriteDonePhrase) {
          verdict := Some(true);
        } else if Contains(buffer, WriteCodePrefix) || Contains(buffer, FormatErrorPhrase)
                  || Contains(buffer, UnknownCommandPhrase) {
          verdict := Some(false);
        }
        i := i + 1;
      }
      ok := verdict == Some(true);
    }
  }

  /**
   * The RID reply handler of one attempt: appends each chunk to the
   * buffer and settles on the trimmed buffer (null if blank) once it holds
   * `Id:` or 10 UTF-16 units; None if the attempt's chunks run out first.
   */
  method AwaitCardId(chunks: seq<string>) returns (verdict: Option<Option<string>>)
    ensures verdict == Answer(chunks)
  {
    var buffer := "";
    verdict := None;
    var i := 0;
    while i < |chunks| && verdict.None?
      invariant 0 <= i <= |chunks|
      invariant verdict.None? ==> Accumulate(RidDecide, "", chunks) == Accumulate(RidDecide, buffer, chunks[i..])
      invariant verdict.Some? ==> verdict == Accumulate(RidDecide, "", chunks)
    {
      assert chunks[i..][1..] == chunks[i + 1..];
      buffer := buffer + chunks[i];
      if Contains(buffer, RidAck) || Utf16Length(buffer) >= RidMinLength {
        var cardId := Trim(buffer);
        verdict := Some(if cardId != [] then Some(cardId) else None);
      }
      i := i + 1;
    }
  }

  /**
   * The text `buildCardData` returns never reaches the card: the write
   * command rejects it and sends nothing.
   */
  method WriteBuiltRecord(comm: SerialCommunication, info: CardInfo, chunks: seq<string>) returns (ok: bool)
    requires BuildCardData(info).Some?
    modifies comm
    ensures !ok && comm.sent == old(comm.sent)
  {
    BuildNeverParses(info);
    ok := comm.WriteCardData(BuildCardData(info).value, chunks, true);
  }
}
