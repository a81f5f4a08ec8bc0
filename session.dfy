/** The stateful side of the Flipper RPC protocol (`FlipperProtocol`): the
    command-id counter, the table of calls waiting for a reply, the event
    queue and the per-event-type callback lists.

    `asyncio` is replaced by explicit steps. A pending call's future is a
    single-assignment slot in `futures`; `responses` maps a command id to
    the slot registered under it. `send_command` is split at its `await`:
    `SendCommand` allocates the id, registers the future and builds the
    frame, and `CompleteCommand` is the waiter waking up, either because its
    future was resolved or because the timeout fired. */
module RpcSession {
  import opened Common
  import opened RpcCodec

  /** The counter wraps modulo `0xFFFFFFFF`, so `0xFFFFFFFF` itself is never
      issued. */
  const IdModulus: nat := 0xFFFF_FFFF

  /** `_get_next_command_id`, on the counter value. */
  function NextCommandId(current: nat): (next: nat)
    ensures next < IdModulus
    ensures next != 0xFFFF_FFFF
  {
    (current + 1) % IdModulus
  }

  /** The counter after `k` calls, starting from the initial value 0. */
  function IdAfter(k: nat): nat
  {
    if k == 0 then 0 else NextCommandId(IdAfter(k - 1))
  }

  /** The `k`-th id issued is `k mod 0xFFFFFFFF`: 1, 2, ..., 0xFFFFFFFE, 0, 1, ... */
  lemma {:induction false} IdAfterIsModular(k: nat)
    ensures IdAfter(k) == k % IdModulus
  {
    if k > 0 {
      IdAfterIsModular(k - 1);
      var p := (k - 1) % IdModulus;
      if p == IdModulus - 1 {
        assert (k - 1) == ((k - 1) / IdModulus) * IdModulus + IdModulus - 1;
        assert k == ((k - 1) / IdModulus + 1) * IdModulus;
      } else {
        assert (k - 1) == ((k - 1) / IdModulus) * IdModulus + p;
        assert k == ((k - 1) / IdModulus) * IdModulus + p + 1;
      }
    }
  }

  /** The first id is 1, and no id repeats within one period of the
      counter. */
  lemma IdsDistinctWithinPeriod(i: nat, j: nat)
    requires 1 <= i < j <= IdModulus
    ensures IdAfter(1) == 1
    ensures IdAfter(i) != IdAfter(j)
  {
    IdAfterInPeriod(1);
    IdAfterInPeriod(i);
    IdAfterInPeriod(j);
  }

  /** Within the first period the `k`-th id is `k`, except that the last
      call of the period wraps to 0. */
  lemma IdAfterInPeriod(k: nat)
    requires 1 <= k <= IdModulus
    ensures IdAfter(k) == if k == IdModulus then 0 else k
  {
    IdAfterIsModular(k);
    if k < IdModulus {
      ModBelow(k);
    }
  }

  lemma ModBelow(x: nat)
    requires x < IdModulus
    ensures x % IdModulus == x
  {
  }

  /** A registered callable; Python compares callbacks with `!=`, so a
      callback is known here only by its identity. */
  type Callback = nat

  /** `[cb for cb in cbs if cb != callback]`. */
  function WithoutCallback(cbs: seq<Callback>, callback: Callback): (r: seq<Callback>)
    ensures callback !in r
    ensures forall c :: c != callback ==> multiset(r)[c] == multiset(cbs)[c]
    ensures |r| <= |cbs|
  {
    if cbs == [] then []
    else
      var rest := WithoutCallback(cbs[1..], callback);
      assert cbs == [cbs[0]] + cbs[1..];
      if cbs[0] == callback then rest else [cbs[0]] + rest
  }

  /** Why a command did not yield a reply. */
  datatype CommandError =
    | EncodingFailed        // `struct.error` from `encode_message`
    | WriteFailed           // `transport.write` raised
    | Timeout               // `asyncio.TimeoutError` from `wait_for`
    | RemoteFailure(detail: Json)  // an ERROR reply: `FlipperProtocolError("Command failed: ...")`
    | ErrorReplyNotObject   // an ERROR reply whose args have no `.get` (AttributeError)

  /** A command that was written and now awaits its reply. */
  datatype PendingCall = PendingCall(id: nat, future: nat, frame: seq<byte>)

  /** `response.args.get('error', 'Unknown error')`. */
  function ErrorDetail(args: Json): (r: Option<Json>)
    ensures r.Some? <==> args.JObject?
    ensures args.JObject? && "error" in args.fields ==> r == Some(args.fields["error"])
    ensures args.JObject? && "error" !in args.fields ==> r == Some(JString("Unknown error"))
  {
    match args
    case JObject(fields) => Some(if "error" in fields then fields["error"] else JString("Unknown error"))
    case _ => None
  }

  /** What the waiter of `send_command` returns or raises once it wakes
      up, given the state of its future. */
  function CommandOutcome(result: Option<RPCMessage>): (r: Result<RPCMessage, CommandError>)
    ensures r.Ok? <==> result.Some? && result.value.msgType != Error
    ensures r.Ok? ==> r.value == result.value
    ensures result.None? ==> r == Err(Timeout)
    ensures result.Some? && result.value.msgType == Error ==>
      && r.Err? && r.error != Timeout
      && (r.error.RemoteFailure? <==> result.value.args.JObject?)
      && (r.error.RemoteFailure? ==> Some(r.error.detail) == ErrorDetail(result.value.args))
  {
    match result
    case None => Err(Timeout)
    case Some(reply) =>
      if reply.msgType == Error then
        match ErrorDetail(reply.args)
        case Some(detail) => Err(RemoteFailure(detail))
        case None => Err(ErrorReplyNotObject)
      else Ok(reply)
  }

  /** `args or {}`: a missing argument map is sent as `{}`. */
  function ArgsOrEmpty(args: Option<Json>): (r: Json)
    ensures args.None? ==> r == EmptyArgs
    ensures args.Some? ==> r == args.value
  {
    if args.Some? then args.value else EmptyArgs
  }

  class FlipperProtocol {
    var commandId: nat
    var callbacks: map<string, seq<Callback>>
    /** `_responses`: command id -> the future registered under it. */
    var responses: map<int, nat>
    /** Every future ever created; `None` while it is not done. */
    var futures: seq<Option<RPCMessage>>
    /** `_events`, front first. */
    var events: seq<RPCMessage>

    ghost predicate Valid()
      reads this
    {
      && commandId < IdModulus
      && forall id :: id in responses ==> responses[id] < |futures|
    }

    constructor ()
      ensures Valid()
      ensures commandId == 0 && callbacks == map[] && responses == map[]
      ensures futures == [] && events == []
    {
      commandId := 0;
      callbacks := map[];
      responses := map[];
      futures := [];
      events := [];
    }

    /** `_get_next_command_id`. */
    method NextId() returns (id: nat)
      requires Valid()
      modifies this`commandId
      ensures Valid()
      ensures commandId == NextCommandId(old(commandId)) && id == commandId
    {
      commandId := NextCommandId(commandId);
      id := commandId;
    }

    /** The part of `send_command` before its `await`: take a fresh id,
        register a new future under it, encode the COMMAND message and write
        it. When encoding or the write fails (`writeRaises`), the `finally`
        clause pops the id again. */
    method SendCommand(tc: TextCodecs, command: string, args: Option<Json>,
                       data: Option<seq<byte>>, writeRaises: bool)
      returns (r: Result<PendingCall, CommandError>)
      requires Valid()
      modifies this
      ensures Valid()
      ensures commandId == NextCommandId(old(commandId))
      ensures futures == old(futures) + [None]
      ensures var msg := RPCMessage(Command, commandId, command, ArgsOrEmpty(args), data);
        && (Encode(tc, msg).Err? ==> r == Err(EncodingFailed))
        && (Encode(tc, msg).Ok? && writeRaises ==> r == Err(WriteFailed))
        && (Encode(tc, msg).Ok? && !writeRaises ==>
              r == Ok(PendingCall(commandId, |old(futures)|, Encode(tc, msg).value)))
      ensures r.Ok? ==> responses == old(responses)[commandId := |old(futures)|]
      ensures r.Err? ==> responses == old(responses) - {commandId}
      ensures events == old(events) && callbacks == old(callbacks)
    {
      var id := NextId();
      var msg := RPCMessage(Command, id, command, ArgsOrEmpty(args), data);
      var future := |futures|;
      futures := futures + [None];
      responses := responses[id := future];
      var frame := Encode(tc, msg);
      if frame.Err? {
        responses := responses - {id};
        return Err(EncodingFailed);
      }
      if writeRaises {
        responses := responses - {id};
        return Err(WriteFailed);
      }
      r := Ok(PendingCall(id, future, frame.value));
    }

    /** The rest of `send_command`: the waiter wakes up, takes its future's
        result (or times out when there is none), and the `finally` clause
        pops the call's id from the pending table on every path. */
    method CompleteCommand(call: PendingCall) returns (r: Result<RPCMessage, CommandError>)
      requires Valid() && call.future < |futures|
      modifies this`responses
      ensures Valid()
      ensures r == CommandOutcome(futures[call.future])
      ensures responses == old(responses) - {call.id}
      ensures call.id !in responses
    {
      r := CommandOutcome(futures[call.future]);
      responses := responses - {call.id};
    }

    /** `handle_response`: resolve the future registered under the reply's
        id if it is not done yet; a reply for an id that is not pending is
        dropped, and a second reply for the same future is ignored. */
    method HandleResponse(message: RPCMessage)
      requires Valid()
      modifies this`futures
      ensures Valid()
      ensures |futures| == |old(futures)|
      ensures message.commandId in responses && old(futures)[responses[message.commandId]].None? ==>
                futures == old(futures)[responses[message.commandId] := Some(message)]
      ensures !(message.commandId in responses && old(futures)[responses[message.commandId]].None?) ==>
                futures == old(futures)
      ensures forall f :: 0 <= f < |futures| && old(futures)[f].Some? ==> futures[f] == old(futures)[f]
    {
      if message.commandId in responses {
        var future := responses[message.commandId];
        if futures[future].None? {
          futures := futures[future := Some(message)];
        }
      }
    }

    /** `handle_event`: queue an event at the back. */
    method HandleEvent(message: RPCMessage)
      requires Valid()
      modifies this`events
      ensures Valid()
      ensures events == old(events) + [message]
    {
      events := events + [message];
    }

    /** `get_next_event`: take the event at the front. `None` stands for the
        `await` that suspends on an empty queue. */
    method NextEvent() returns (r: Option<RPCMessage>)
      requires Valid()
      modifies this`events
      ensures Valid()
      ensures old(events) == [] ==> r.None? && events == []
      ensures old(events) != [] ==> r == Some(old(events)[0]) && events == old(events)[1..]
    {
      if events == [] {
        return None;
      }
      r := Some(events[0]);
      events := events[1..];
    }

    /** `register_callback`: append to the event type's list, creating it
        when absent. */
    method RegisterCallback(eventType: string, callback: Callback)
      requires Valid()
      modifies this`callbacks
      ensures Valid()
      ensures eventType in callbacks
      ensures callbacks == old(callbacks)[eventType :=
        (if eventType in old(callbacks) then old(callbacks)[eventType] else []) + [callback]]
    {
      if eventType !in callbacks {
        callbacks := callbacks[eventType := []];
      }
      callbacks := callbacks[eventType := callbacks[eventType] + [callback]];
    }

    /** `unregister_callback`: drop every registration of the callback for
        that event type; an unknown event type is left alone. */
    method UnregisterCallback(eventType: string, callback: Callback)
      requires Valid()
      modifies this`callbacks
      ensures Valid()
      ensures eventType !in old(callbacks) ==> callbacks == old(callbacks)
      ensures eventType in old(callbacks) ==>
        callbacks == old(callbacks)[eventType := WithoutCallback(old(callbacks)[eventType], callback)]
    {
      if eventType in callbacks {
        callbacks := callbacks[eventType := WithoutCallback(callbacks[eventType], callback)];
      }
    }
  }

  /** A reply that arrives after its call timed out finds no pending
      entry: the call's future stays unresolved, nothing is queued as an
      event and no entry is left pending. */
  method LateReplyIsDropped(tc: TextCodecs, p: FlipperProtocol, reply: RPCMessage)
    returns (outcome: Result<RPCMessage, CommandError>)
    requires p.Valid() && p.responses == map[]
    modifies p
    ensures p.Valid()
    ensures outcome == Err(Timeout) || outcome == Err(EncodingFailed)
    ensures p.futures == old(p.futures) + [None]
    ensures p.events == old(p.events) && p.responses == map[]
  {
    var call := p.SendCommand(tc, "system.ping", None, None, false);
    if call.Ok? {
      outcome := p.CompleteCommand(call.value);
      assert outcome == Err(Timeout);
      var before := p.futures;
      p.HandleResponse(reply.(commandId := call.value.id));
      assert p.futures == before;
    } else {
      outcome := Err(call.error);
    }
  }
}
