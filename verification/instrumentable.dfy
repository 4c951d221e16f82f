/** `NotificationCenter` and `instrument` (src/core/instrumentable.rs). A callback
    is represented by an id, and running callbacks is represented by the log of
    (callback, event) invocations in the order they happen. The process-wide
    center is threaded as a value; the clock is an input. */
module Instrumentable {
  import opened Wrappers

  type CallbackId = nat

  const WILDCARD: string := "*"

  /** `InstrumentInfo`: times are in ms. */
  datatype Info = Info(name: string, startTime: nat, duration: Option<nat>, payload: map<string, string>)

  datatype Center = Center(subscribers: map<string, seq<CallbackId>>)

  function New(): (c: Center)
    ensures forall e :: Subscribed(c, e) == []
  {
    Center(map[])
  }

  /** The callbacks subscribed to `event`, in subscription order. */
  function Subscribed(c: Center, event: string): seq<CallbackId> {
    if event in c.subscribers then c.subscribers[event] else []
  }

  /** `subscribe`: appends the callback to the event's list. */
  function Subscribe(c: Center, event: string, cb: CallbackId): (r: Center)
    ensures Subscribed(r, event) == Subscribed(c, event) + [cb]
    ensures forall e :: e != event ==> Subscribed(r, e) == Subscribed(c, e)
  {
    Center(c.subscribers[event := Subscribed(c, event) + [cb]])
  }

  /** `publish`: the invocations made, first the callbacks of the event's name in
      subscription order, then the wildcard callbacks. */
  function Publish(c: Center, info: Info): (r: seq<(CallbackId, Info)>)
    ensures |r| == |Subscribed(c, info.name)| + |Subscribed(c, WILDCARD)|
    ensures forall k :: 0 <= k < |r| ==> r[k].1 == info
    ensures forall k :: 0 <= k < |Subscribed(c, info.name)| ==> r[k].0 == Subscribed(c, info.name)[k]
    ensures forall k :: 0 <= k < |Subscribed(c, WILDCARD)| ==>
              r[|Subscribed(c, info.name)| + k].0 == Subscribed(c, WILDCARD)[k]
  {
    Invocations(Subscribed(c, info.name), info) + Invocations(Subscribed(c, WILDCARD), info)
  }

  function Invocations(cbs: seq<CallbackId>, info: Info): (r: seq<(CallbackId, Info)>)
    ensures |r| == |cbs| && forall k :: 0 <= k < |cbs| ==> r[k] == (cbs[k], info)
  {
    seq(|cbs|, k requires 0 <= k < |cbs| => (cbs[k], info))
  }

  /** How often a callback runs on a publish: once per subscription to the name
      and once per wildcard subscription, so an event named "*" runs each
      wildcard subscription twice. */
  lemma {:induction false} PublishCalls(c: Center, info: Info, cb: CallbackId)
    ensures multiset(IdsOf(Publish(c, info)))[cb] ==
            multiset(Subscribed(c, info.name))[cb] + multiset(Subscribed(c, WILDCARD))[cb]
  {
    var a := Subscribed(c, info.name);
    var b := Subscribed(c, WILDCARD);
    IdsOfInvocations(a, info);
    IdsOfInvocations(b, info);
    IdsOfAppend(Invocations(a, info), Invocations(b, info));
  }

  /** The callback ids of a log, in order. */
  function IdsOf(log: seq<(CallbackId, Info)>): (r: seq<CallbackId>)
    ensures |r| == |log| && forall k :: 0 <= k < |log| ==> r[k] == log[k].0
  {
    seq(|log|, k requires 0 <= k < |log| => log[k].0)
  }

  lemma IdsOfInvocations(cbs: seq<CallbackId>, info: Info)
    ensures IdsOf(Invocations(cbs, info)) == cbs
  {
  }

  lemma IdsOfAppend(a: seq<(CallbackId, Info)>, b: seq<(CallbackId, Info)>)
    ensures IdsOf(a + b) == IdsOf(a) + IdsOf(b)
  {
  }

  /** An event named "*" runs every wildcard subscription twice. */
  lemma WildcardEventRunsTwice(c: Center, info: Info, cb: CallbackId)
    requires info.name == WILDCARD
    ensures multiset(IdsOf(Publish(c, info)))[cb] == 2 * multiset(Subscribed(c, WILDCARD))[cb]
  {
    PublishCalls(c, info, cb);
  }

  /** A callback subscribed to an event runs once more on its next publish than
      it did before the subscription (twice more when the event is "*"). */
  lemma SubscribeThenPublish(c: Center, info: Info, cb: CallbackId)
    ensures var extra := if info.name == WILDCARD then 2 else 1;
      multiset(IdsOf(Publish(Subscribe(c, info.name, cb), info)))[cb] ==
      multiset(IdsOf(Publish(c, info)))[cb] + extra
  {
    var c1 := Subscribe(c, info.name, cb);
    PublishCalls(c, info, cb);
    PublishCalls(c1, info, cb);
  }

  /** `instrument`: the action's result, and the log of the one event it
      publishes, named `name`, carrying `payload` and the elapsed time. */
  function Instrument<T>(c: Center, name: string, payload: map<string, string>, startTime: nat,
                         elapsed: nat, result: T): (r: (T, seq<(CallbackId, Info)>))
    ensures r.0 == result
    ensures forall k :: 0 <= k < |r.1| ==> r.1[k].1 == Info(name, startTime, Some(elapsed), payload)
    ensures IdsOf(r.1) == Subscribed(c, name) + Subscribed(c, WILDCARD)
  {
    var info := Info(name, startTime, Some(elapsed), payload);
    var log := Publish(c, info);
    IdsOfInvocations(Subscribed(c, name), info);
    IdsOfInvocations(Subscribed(c, WILDCARD), info);
    IdsOfAppend(Invocations(Subscribed(c, name), info), Invocations(Subscribed(c, WILDCARD), info));
    (result, log)
  }

  /** The module's own test: one subscriber to "test_event" runs exactly once,
      sees the event's name and a duration, and the action's 42 comes back. */
  lemma InstrumentScenario(cb: CallbackId, start: nat, elapsed: nat)
    ensures var c := Subscribe(New(), "test_event", cb);
      var (result, log) := Instrument(c, "test_event", map["key" := "value"], start, elapsed, 42);
      && result == 42 && |log| == 1 && log[0].0 == cb
      && log[0].1.name == "test_event" && log[0].1.duration.Some?
  {
    var c := Subscribe(New(), "test_event", cb);
    assert "test_event"[0] != WILDCARD[0];
    assert Subscribed(c, WILDCARD) == [];
  }
}
