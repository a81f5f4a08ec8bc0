/** `DeviceManager`: the connection state machine over the registered
    transports, the status observers, the guarded `write`/`read`, and the
    payload choice of `transmit_signal`.

    The USB and BLE transports talk to hardware, so what their
    `availability`, `connect`, `disconnect`, `write` and `read` do is passed
    in by the caller. The mock transport is a `MockTransport` object the
    manager owns when it was built with `enable_mock`. A status callback is
    known by its identity; calling it is recorded in `notified`. */
module DeviceManagement {
  import opened Common
  import opened MockTransports

  datatype ConnectionType = USB | BLE | MOCK

  datatype ConnectionStatus = Disconnected | Connecting | Connected | Error

  /** `ConnectionType.value`. */
  function TypeValue(t: ConnectionType): string
  {
    match t
    case USB => "usb"
    case BLE => "ble"
    case MOCK => "mock"
  }

  /** `ConnectionStatus.value`. */
  function StatusValue(s: ConnectionStatus): string
  {
    match s
    case Disconnected => "disconnected"
    case Connecting => "connecting"
    case Connected => "connected"
    case Error => "error"
  }

  /** A status callback, known by its identity. */
  type StatusCallback = nat

  /** One call `callback(status)`. */
  datatype Notification = Notification(callback: StatusCallback, status: ConnectionStatus)

  /** The calls `_update_status(status)` makes: each callback, in
      registration order, with the new status. */
  function Broadcast(callbacks: seq<StatusCallback>, status: ConnectionStatus): (r: seq<Notification>)
    ensures |r| == |callbacks|
    ensures forall i :: 0 <= i < |r| ==> r[i] == Notification(callbacks[i], status)
  {
    if callbacks == [] then []
    else Broadcast(callbacks[..|callbacks| - 1], status) + [Notification(callbacks[|callbacks| - 1], status)]
  }

  /** The calls made by a series of status updates, in order. */
  function BroadcastAll(callbacks: seq<StatusCallback>, steps: seq<ConnectionStatus>): seq<Notification>
  {
    if steps == [] then []
    else Broadcast(callbacks, steps[0]) + BroadcastAll(callbacks, steps[1..])
  }

  /** `list.remove(x)` behind `if x in list`: drop the first occurrence,
      or nothing when there is none. */
  function RemoveFirst(callbacks: seq<StatusCallback>, callback: StatusCallback): (r: seq<StatusCallback>)
    ensures callback !in callbacks ==> r == callbacks
    ensures |r| == |callbacks| - (if callback in callbacks then 1 else 0)
  {
    if callbacks == [] then []
    else if callbacks[0] == callback then callbacks[1..]
    else [callbacks[0]] + RemoveFirst(callbacks[1..], callback)
  }

  /** Removing a registered callback takes out exactly one registration
      of it and keeps every other one. */
  lemma {:induction false} RemoveFirstDropsOne(callbacks: seq<StatusCallback>, callback: StatusCallback)
    requires callback in callbacks
    ensures multiset(RemoveFirst(callbacks, callback)) == multiset(callbacks) - multiset{callback}
  {
    assert callbacks == [callbacks[0]] + callbacks[1..];
    if callbacks[0] != callback {
      RemoveFirstDropsOne(callbacks[1..], callback);
    }
  }

  /** It is the first registration that goes: everything before it and
      everything after it stays, in order. */
  lemma {:induction false} RemoveFirstAt(callbacks: seq<StatusCallback>, callback: StatusCallback, i: nat)
    requires i < |callbacks| && callbacks[i] == callback && callback !in callbacks[..i]
    ensures RemoveFirst(callbacks, callback) == callbacks[..i] + callbacks[i + 1..]
  {
    if i > 0 {
      assert callbacks[1..][..i - 1] == callbacks[1..i];
      assert callbacks[0] in callbacks[..i];
      RemoveFirstAt(callbacks[1..], callback, i - 1);
      assert callbacks[..i] == [callbacks[0]] + callbacks[1..][..i - 1];
      assert callbacks[1..][i..] == callbacks[i + 1..];
    }
  }

  /** What a hardware transport does when asked to connect. */
  datatype ConnectAttempt =
    | Unavailable           // `availability().available` is false
    | Raises                // `connect` raised
    | Returns(success: bool)

  /** The mock transport is always available and always connects. */
  function EffectiveAttempt(t: ConnectionType, attempt: ConnectAttempt): ConnectAttempt
  {
    if t == MOCK then Returns(true) else attempt
  }

  /** The statuses `connect` sets once any earlier connection is closed:
      nothing for an unregistered type, ERROR for an unavailable
      transport, otherwise CONNECTING and then CONNECTED or ERROR. */
  function OpenSteps(registered: bool, attempt: ConnectAttempt): (r: seq<ConnectionStatus>)
    ensures registered <==> r != []
    ensures registered && attempt != Unavailable ==> |r| == 2 && r[0] == Connecting
    ensures registered ==> r[|r| - 1] == (if attempt == Returns(true) then Connected else Error)
  {
    if !registered then []
    else if attempt == Unavailable then [Error]
    else [Connecting, if attempt == Returns(true) then Connected else Error]
  }

  /** All the statuses `connect` sets, in order: DISCONNECTED first when
      it was connected. */
  function ConnectSteps(wasConnected: bool, registered: bool, attempt: ConnectAttempt): seq<ConnectionStatus>
  {
    (if wasConnected then [Disconnected] else []) + OpenSteps(registered, attempt)
  }

  /** The objects `transmit_signal` may find on a signal's attributes. */
  datatype PyValue =
    | PyNone
    | PyBytes(bytes: seq<byte>)     // `bytes` or `bytearray`
    | PyArray(contents: seq<byte>)  // an object with `tobytes()`, e.g. a numpy array
    | PyOther

  /** A signal's `decoded_data`, `data` and `raw_samples` attributes;
      `None` when the attribute does not exist. */
  datatype SignalAttributes = SignalAttributes(
    decodedData: Option<PyValue>,
    data: Option<PyValue>,
    rawSamples: Option<PyValue>)

  /** The byte form of `raw_samples`, when it has one. */
  function RawSamplesBytes(v: PyValue): seq<PyValue>
  {
    match v
    case PyArray(contents) => [PyBytes(contents)]
    case PyBytes(bytes) => [PyBytes(bytes)]
    case _ => []
  }

  /** The candidate payloads, in order of preference. */
  function Candidates(s: SignalAttributes): seq<PyValue>
  {
    (if s.decodedData.Some? then [s.decodedData.value] else [])
    + (if s.data.Some? then [s.data.value] else [])
    + (if s.rawSamples.Some? then RawSamplesBytes(s.rawSamples.value) else [])
  }

  predicate IsPayload(v: PyValue)
  {
    v.PyBytes? && v.bytes != []
  }

  /** The first candidate that is non-empty bytes. */
  function FirstPayload(candidates: seq<PyValue>): (r: Option<seq<byte>>)
    ensures r.None? <==> forall k :: 0 <= k < |candidates| ==> !IsPayload(candidates[k])
    ensures r.Some? ==> r.value != []
    ensures r.Some? ==>
      exists k :: 0 <= k < |candidates| && candidates[k] == PyBytes(r.value)
        && forall j :: 0 <= j < k ==> !IsPayload(candidates[j])
  {
    if candidates == [] then None
    else if IsPayload(candidates[0]) then Some(candidates[0].bytes)
    else
      var r := FirstPayload(candidates[1..]);
      assert forall k :: 1 <= k < |candidates| ==> candidates[k] == candidates[1..][k - 1];
      if r.Some? then
        var k :| 0 <= k < |candidates[1..]| && candidates[1..][k] == PyBytes(r.value)
          && forall j :: 0 <= j < k ==> !IsPayload(candidates[1..][j]);
        assert candidates[k + 1] == PyBytes(r.value);
        r
      else r
  }

  /** The loop of `transmit_signal` that picks the payload. */
  method ChoosePayload(candidates: seq<PyValue>) returns (payload: Option<seq<byte>>)
    ensures payload == FirstPayload(candidates)
  {
    payload := None;
    for i := 0 to |candidates|
      invariant forall k :: 0 <= k < i ==> !IsPayload(candidates[k])
    {
      var candidate := candidates[i];
      if candidate.PyBytes? && |candidate.bytes| > 0 {
        payload := Some(candidate.bytes);
        assert FirstPayload(candidates) == payload by { FirstPayloadAt(candidates, i); }
        return;
      }
    }
  }

  /** When everything before position `i` is no payload and `i` is one,
      it is the payload chosen. */
  lemma {:induction false} FirstPayloadAt(candidates: seq<PyValue>, i: nat)
    requires i < |candidates| && IsPayload(candidates[i])
    requires forall k :: 0 <= k < i ==> !IsPayload(candidates[k])
    ensures FirstPayload(candidates) == Some(candidates[i].bytes)
  {
    if i > 0 {
      FirstPayloadAt(candidates[1..], i - 1);
    }
  }

  /** Non-empty decoded bytes are always preferred. */
  lemma PayloadPrefersDecodedData(s: SignalAttributes, decoded: seq<byte>)
    requires s.decodedData == Some(PyBytes(decoded)) && decoded != []
    ensures FirstPayload(Candidates(s)) == Some(decoded)
  {
    FirstPayloadAt(Candidates(s), 0);
  }

  /** With no decoded bytes and no data, an array of samples is sent in its
      byte form. */
  lemma PayloadFallsBackToRawSamples(s: SignalAttributes, samples: seq<byte>)
    requires s.decodedData.None? || s.decodedData == Some(PyNone)
    requires s.data.None? || s.data == Some(PyNone)
    requires s.rawSamples == Some(PyArray(samples)) && samples != []
    ensures FirstPayload(Candidates(s)) == Some(samples)
  {
    var c := Candidates(s);
    FirstPayloadAt(c, |c| - 1);
  }

  /** What `get_connection_info` reports. */
  datatype ConnectionInfo = ConnectionInfo(connectionType: string, status: string)

  class DeviceManager {
    /** The mock transport, registered under MOCK; `null` when the manager
        was built without `enable_mock`. */
    const mock: MockTransport?
    var status: ConnectionStatus
    var connectionType: Option<ConnectionType>
    /** The registered transport in use, named by the key it is
        registered under. */
    var activeTransport: Option<ConnectionType>
    var statusCallbacks: seq<StatusCallback>
    /** Every callback call made so far, oldest first. */
    var notified: seq<Notification>

    /** `_transports.get(t)` finds a transport: USB and BLE always, MOCK
        only with `enable_mock`. */
    predicate Registered(t: ConnectionType)
    {
      t != MOCK || mock != null
    }

    /** The bookkeeping between calls: a transport is active exactly when
        the status is CONNECTED, under the type recorded beside it, and an
        active mock is connected. CONNECTING is never visible between
        calls. */
    ghost predicate Valid()
      reads this, mock
    {
      && activeTransport == connectionType
      && (activeTransport.Some? <==> status == Connected)
      && status != Connecting
      && (activeTransport.Some? ==> Registered(activeTransport.value))
      && (activeTransport == Some(MOCK) ==> mock != null && mock.connected)
    }

    /** `DeviceManager(enable_mock=...)`. */
    constructor (enableMock: bool)
      ensures Valid()
      ensures status == Disconnected && activeTransport == None && connectionType == None
      ensures statusCallbacks == [] && notified == []
      ensures enableMock <==> mock != null
      ensures mock != null ==> fresh(mock) && !mock.connected && mock.buffer == []
    {
      if enableMock {
        mock := new MockTransport();
      } else {
        mock := null;
      }
      status := Disconnected;
      connectionType := None;
      activeTransport := None;
      statusCallbacks := [];
      notified := [];
    }

    /** `add_status_callback`. */
    method AddStatusCallback(callback: StatusCallback)
      modifies this`statusCallbacks
      ensures statusCallbacks == old(statusCallbacks) + [callback]
    {
      statusCallbacks := statusCallbacks + [callback];
    }

    /** `remove_status_callback`: an unknown callback is ignored. */
    method RemoveStatusCallback(callback: StatusCallback)
      modifies this`statusCallbacks
      ensures statusCallbacks == RemoveFirst(old(statusCallbacks), callback)
    {
      if callback in statusCallbacks {
        var i := 0;
        while statusCallbacks[i] != callback
          invariant 0 <= i < |statusCallbacks|
          invariant callback !in statusCallbacks[..i]
          invariant callback in statusCallbacks[i..]
          decreases |statusCallbacks| - i
        {
          assert statusCallbacks[..i + 1] == statusCallbacks[..i] + [statusCallbacks[i]];
          i := i + 1;
        }
        RemoveFirstAt(statusCallbacks, callback, i);
        statusCallbacks := statusCallbacks[..i] + statusCallbacks[i + 1..];
      }
    }

    /** `_update_status`: set the status, then call every registered
        callback, in order, with it. */
    method UpdateStatus(s: ConnectionStatus)
      modifies this`status, this`notified
      ensures status == s
      ensures notified == old(notified) + Broadcast(statusCallbacks, s)
    {
      status := s;
      var callbacks := statusCallbacks;
      for i := 0 to |callbacks|
        invariant status == s
        invariant notified == old(notified) + Broadcast(callbacks[..i], s)
      {
        assert callbacks[..i + 1][..i] == callbacks[..i];
        notified := notified + [Notification(callbacks[i], s)];
      }
      assert callbacks[..|callbacks|] == callbacks;
    }

    /** `disconnect`: let the active transport disconnect, then clear the
        bookkeeping and report DISCONNECTED whatever happened. Only a
        hardware transport whose disconnect raised makes it return false. */
    method Disconnect(raises: bool) returns (ok: bool)
      requires Valid()
      modifies this, mock
      ensures Valid()
      ensures ok <==> !(old(activeTransport).Some? && old(activeTransport) != Some(MOCK) && raises)
      ensures status == Disconnected && activeTransport == None && connectionType == None
      ensures statusCallbacks == old(statusCallbacks)
      ensures notified == old(notified) + Broadcast(statusCallbacks, Disconnected)
      ensures old(activeTransport) == Some(MOCK) ==> !mock.connected && mock.buffer == []
      ensures old(activeTransport) != Some(MOCK) && mock != null ==>
        mock.connected == old(mock.connected) && mock.buffer == old(mock.buffer)
    {
      if activeTransport.None? {
        UpdateStatus(Disconnected);
        return true;
      }
      if activeTransport == Some(MOCK) {
        ok := mock.Disconnect();
      } else {
        ok := !raises;
      }
      activeTransport := None;
      connectionType := None;
      UpdateStatus(Disconnected);
    }

    /** `connect(t)`: disconnect first when connected; fail without a
        status change for an unregistered type; otherwise move through the
        statuses of `ConnectSteps`, recording the transport only when its
        connect returned true. */
    method Connect(t: ConnectionType, attempt: ConnectAttempt, disconnectRaises: bool) returns (ok: bool)
      requires Valid()
      modifies this, mock
      ensures Valid()
      ensures ok <==> Registered(t) && EffectiveAttempt(t, attempt) == Returns(true)
      ensures ok ==> status == Connected && activeTransport == Some(t) && connectionType == Some(t)
      ensures !ok ==> activeTransport == None && connectionType == None
      ensures var steps := ConnectSteps(old(status) == Connected, Registered(t), EffectiveAttempt(t, attempt));
        && notified == old(notified) + BroadcastAll(statusCallbacks, steps)
        && status == (if steps == [] then old(status) else steps[|steps| - 1])
      ensures statusCallbacks == old(statusCallbacks)
      ensures mock != null ==>
        var drained := old(activeTransport) == Some(MOCK);
        && mock.buffer == (if drained then [] else old(mock.buffer))
        && mock.connected == (if t == MOCK then true else if drained then false else old(mock.connected))
    {
      var wasConnected := status == Connected;
      ghost var pre: seq<ConnectionStatus> := [];
      if wasConnected {
        var _ := Disconnect(disconnectRaises);
        pre := [Disconnected];
        BroadcastAllShort(statusCallbacks, Disconnected, Disconnected);
      }
      ok := Open(t, attempt);
      ghost var open := OpenSteps(Registered(t), EffectiveAttempt(t, attempt));
      assert ConnectSteps(wasConnected, Registered(t), EffectiveAttempt(t, attempt)) == pre + open;
      BroadcastAllAppend(statusCallbacks, pre, open);
      AppendAssociative(old(notified), BroadcastAll(statusCallbacks, pre), BroadcastAll(statusCallbacks, open));
    }

    /** The part of `connect` after any earlier connection is closed. */
    method Open(t: ConnectionType, attempt: ConnectAttempt) returns (ok: bool)
      requires Valid() && status != Connected
      modifies this`status, this`notified, this`activeTransport, this`connectionType, mock
      ensures Valid()
      ensures ok <==> Registered(t) && EffectiveAttempt(t, attempt) == Returns(true)
      ensures ok ==> activeTransport == Some(t) && connectionType == Some(t)
      ensures !ok ==> activeTransport == None && connectionType == None
      ensures var steps := OpenSteps(Registered(t), EffectiveAttempt(t, attempt));
        && notified == old(notified) + BroadcastAll(statusCallbacks, steps)
        && status == (if steps == [] then old(status) else steps[|steps| - 1])
      ensures mock != null && t != MOCK ==> mock.connected == old(mock.connected) && mock.buffer == old(mock.buffer)
      ensures mock != null && t == MOCK ==> mock.connected && mock.buffer == old(mock.buffer)
    {
      if !Registered(t) {
        return false;
      }
      var effective := EffectiveAttempt(t, attempt);
      if effective == Unavailable {
        UpdateStatus(Error);
        BroadcastAllShort(statusCallbacks, Error, Error);
        return false;
      }
      ghost var before := notified;
      UpdateStatus(Connecting);
      var success := false;
      if t == MOCK {
        success := mock.Connect();
      } else if effective.Returns? {
        success := effective.success;
      }
      ghost var connecting := notified;
      if success {
        activeTransport := Some(t);
        connectionType := Some(t);
        UpdateStatus(Connected);
      } else {
        UpdateStatus(Error);
      }
      BroadcastAllShort(statusCallbacks, Connecting, status);
      assert notified == before + BroadcastAll(statusCallbacks, [Connecting, status]) by {
        assert connecting == before + Broadcast(statusCallbacks, Connecting);
        assert notified == connecting + Broadcast(statusCallbacks, status);
        AppendAssociative(before, Broadcast(statusCallbacks, Connecting), Broadcast(statusCallbacks, status));
      }
      assert OpenSteps(Registered(t), effective) == [Connecting, status];
      ok := success;
    }

    /** `is_connected`: the status is CONNECTED, which between calls is
        exactly when a transport is active under a recorded type. */
    predicate IsConnected(): (connected: bool)
      reads this, mock
      ensures connected <==> status == Connected
      ensures Valid() ==> (connected <==> activeTransport.Some? && connectionType.Some?)
    {
      status == Connected
    }

    /** `write`: refused unless connected; otherwise the active transport's
        `write`. What a hardware transport's write gives is `hardware`. */
    method Write(data: seq<byte>, hardware: Result<nat, TransportError>) returns (r: Result<nat, TransportError>)
      requires Valid()
      modifies mock
      ensures Valid()
      ensures status != Connected ==> r == Err(NotConnected)
      ensures status == Connected && activeTransport == Some(MOCK) ==>
        r == Ok(|data|) && mock.buffer == old(mock.buffer) + data
      ensures status == Connected && activeTransport != Some(MOCK) ==> r == hardware
      ensures !(status == Connected && activeTransport == Some(MOCK)) && mock != null ==>
        mock.buffer == old(mock.buffer)
      ensures mock != null ==> mock.connected == old(mock.connected)
    {
      if !IsConnected() || activeTransport.None? {
        return Err(NotConnected);
      }
      if activeTransport == Some(MOCK) {
        r := mock.Write(data);
      } else {
        r := hardware;
      }
    }

    /** `read(size)`: refused unless connected; otherwise the active
        transport's `read`. What a hardware transport's read gives is
        `hardware`. */
    method Read(size: int, hardware: Result<seq<byte>, TransportError>) returns (r: Result<seq<byte>, TransportError>)
      requires Valid()
      modifies mock
      ensures Valid()
      ensures status != Connected ==> r == Err(NotConnected)
      ensures status == Connected && activeTransport == Some(MOCK) ==>
        r == Ok(Take(old(mock.buffer), size).data) && mock.buffer == Take(old(mock.buffer), size).rest
      ensures status == Connected && activeTransport != Some(MOCK) ==> r == hardware
      ensures !(status == Connected && activeTransport == Some(MOCK)) && mock != null ==>
        mock.buffer == old(mock.buffer)
      ensures mock != null ==> mock.connected == old(mock.connected)
    {
      if !IsConnected() || activeTransport.None? {
        return Err(NotConnected);
      }
      if activeTransport == Some(MOCK) {
        r := mock.Read(size);
      } else {
        r := hardware;
      }
    }

    /** `get_connection_info`: `None` unless connected, else the type's and
        the status's wire names. */
    function GetConnectionInfo(): (r: Option<ConnectionInfo>)
      reads this, mock
      ensures r.None? <==> status != Connected
      ensures r.Some? ==> r.value.status == "connected"
      ensures r.Some? && connectionType.Some? ==> r.value.connectionType == TypeValue(connectionType.value)
    {
      if !IsConnected() then None
      else Some(ConnectionInfo(
        if connectionType.Some? then TypeValue(connectionType.value) else "unknown",
        StatusValue(status)))
    }

    /** `transmit_signal`: refused unless connected; no payload means false
        without writing; otherwise whether the transport took the whole
        payload. */
    method TransmitSignal(signal: SignalAttributes, hardware: Result<nat, TransportError>)
      returns (r: Result<bool, TransportError>)
      requires Valid()
      modifies mock
      ensures Valid()
      ensures status != Connected ==> r == Err(NotConnected)
      ensures var payload := FirstPayload(Candidates(signal));
        && (status == Connected && payload.None? ==> r == Ok(false))
        && (status == Connected && payload.Some? && activeTransport == Some(MOCK) ==>
              r == Ok(true) && mock.buffer == old(mock.buffer) + payload.value)
        && (status == Connected && payload.Some? && activeTransport != Some(MOCK) ==>
              r == (if hardware.Ok? then Ok(hardware.value == |payload.value|) else Err(hardware.error)))
      ensures mock != null && !(status == Connected && activeTransport == Some(MOCK)
                                && FirstPayload(Candidates(signal)).Some?) ==>
        mock.buffer == old(mock.buffer)
      ensures mock != null ==> mock.connected == old(mock.connected)
    {
      if !IsConnected() {
        return Err(NotConnected);
      }
      var payload := ChoosePayload(Candidates(signal));
      if payload.None? {
        return Ok(false);
      }
      var written := Write(payload.value, hardware);
      if written.Err? {
        return Err(written.error);
      }
      r := Ok(written.value == |payload.value|);
    }
  }

  lemma AppendAssociative(a: seq<Notification>, b: seq<Notification>, c: seq<Notification>)
    ensures (a + b) + c == a + (b + c)
  {
  }

  /** Broadcasting one update, or two in a row. */
  lemma BroadcastAllShort(callbacks: seq<StatusCallback>, a: ConnectionStatus, b: ConnectionStatus)
    ensures BroadcastAll(callbacks, [a]) == Broadcast(callbacks, a)
    ensures BroadcastAll(callbacks, [a, b]) == Broadcast(callbacks, a) + Broadcast(callbacks, b)
  {
    assert [a, b][1..] == [b];
    assert BroadcastAll(callbacks, [b]) == Broadcast(callbacks, b) + BroadcastAll(callbacks, []);
  }

  /** Broadcasting two series of updates one after the other. */
  lemma {:induction false} BroadcastAllAppend(callbacks: seq<StatusCallback>, a: seq<ConnectionStatus>, b: seq<ConnectionStatus>)
    ensures BroadcastAll(callbacks, a + b) == BroadcastAll(callbacks, a) + BroadcastAll(callbacks, b)
  {
    if a != [] {
      assert (a + b)[1..] == a[1..] + b;
      BroadcastAllAppend(callbacks, a[1..], b);
    } else {
      assert a + b == b;
    }
  }

  /** A manager built with the mock transport connects to it, and a
      signal carrying decoded bytes is transmitted in full. */
  method TransmitWithMockTransport() returns (sent: Result<bool, TransportError>)
    ensures sent == Ok(true)
  {
    var manager := new DeviceManager(true);
    var connected := manager.Connect(MOCK, Unavailable, false);
    assert connected;
    var signal := SignalAttributes(Some(PyBytes([112, 97, 121, 108, 111, 97, 100])), Some(PyNone), Some(PyNone));
    PayloadPrefersDecodedData(signal, [112, 97, 121, 108, 111, 97, 100]);
    sent := manager.TransmitSignal(signal, Err(TransportFailure));
    var _ := manager.Disconnect(false);
  }

  /** A signal whose attributes are all `None` transmits nothing. */
  method TransmitWithoutPayload() returns (sent: Result<bool, TransportError>)
    ensures sent == Ok(false)
  {
    var manager := new DeviceManager(true);
    var connected := manager.Connect(MOCK, Unavailable, false);
    var signal := SignalAttributes(Some(PyNone), Some(PyNone), Some(PyNone));
    assert Candidates(signal) == [PyNone, PyNone];
    sent := manager.TransmitSignal(signal, Ok(0));
    var _ := manager.Disconnect(false);
  }
}
