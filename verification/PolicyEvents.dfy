/** The in-process event bus: one queue for each subscriber and a version that only grows. */
module PolicyEvents {
  import opened Basics
  import opened PolicyStream

  /** Commit i of this change is waiting, and nothing is on a shared channel. */
  predicate Unshared(s: State, i: nat, kind: Kind, id: PolicyId) {
    && i < |s.unnumbered| && s.unnumbered[i] == Event(kind, id, 0)
    && s.numbered == [] && s.channel == [] && s.version == |s.log|
  }

  class EventQueue {
    var items: seq<Event>

    constructor ()
      ensures items == []
    {
      items := [];
    }

    method PutNowait(e: Event)
      modifies this
      ensures items == old(items) + [e]
    {
      items := items + [e];
    }
  }

  class PolicyEventBus {
    var subscribers: seq<EventQueue>
    var version: nat

    ghost predicate Valid()
      reads this
    {
      forall i, j :: 0 <= i < j < |subscribers| ==> subscribers[i] != subscribers[j]
    }

    /** What the protocol's state says of the version and of the stream that reads this queue. */
    ghost predicate Shows(queue: EventQueue, s: State)
      reads this, queue
    {
      version == s.version && (!s.phase.Connecting? ==> queue.items == s.queue)
    }

    constructor ()
      ensures Valid() && subscribers == [] && version == 0
    {
      subscribers := [];
      version := 0;
    }

    /** A new listener; for the stream that asks for it, the protocol's action Subscribe. */
    method Subscribe() returns (queue: EventQueue)
      requires Valid()
      modifies this`subscribers
      ensures Valid() && fresh(queue)
      ensures subscribers == old(subscribers) + [queue] && queue.items == []
      ensures forall s: State :: Enabled(s, Action.Subscribe) && s.version == version && s.queue == [] ==>
        Shows(queue, Apply(s, Action.Subscribe))
    {
      queue := new EventQueue();
      subscribers := subscribers + [queue];
    }

    /** Removes a listener; one that is not registered is ignored. */
    method Unsubscribe(queue: EventQueue)
      requires Valid()
      modifies this`subscribers
      ensures Valid() && queue !in subscribers
      ensures queue !in old(subscribers) ==> subscribers == old(subscribers)
      ensures forall i :: 0 <= i < |old(subscribers)| && old(subscribers)[i] == queue ==>
        subscribers == Without(old(subscribers), i)
    {
      var i := 0;
      while i < |subscribers|
        invariant 0 <= i <= |subscribers|
        invariant subscribers == old(subscribers)
        invariant queue !in subscribers[..i]
      {
        if subscribers[i] == queue {
          subscribers := Without(subscribers, i);
          return;
        }
        i := i + 1;
      }
    }

    /** Every subscriber receives the event, once and last. */
    method Publish(e: Event)
      requires Valid()
      modifies subscribers
      ensures forall q :: q in subscribers ==> q.items == old(q.items) + [e]
    {
      var i := 0;
      while i < |subscribers|
        invariant 0 <= i <= |subscribers|
        invariant forall k :: 0 <= k < i ==> subscribers[k].items == old(subscribers[k].items) + [e]
        invariant forall k :: i <= k < |subscribers| ==> subscribers[k].items == old(subscribers[k].items)
      {
        subscribers[i].PutNowait(e);
        i := i + 1;
      }
    }

    method IncrementVersion() returns (v: nat)
      modifies this`version
      ensures v == version == old(version) + 1
    {
      version := version + 1;
      v := version;
    }

    /** The catch-up loop of the listener and of start-up: never lowers the version. */
    method CatchUp(ver: nat)
      modifies this`version
      ensures version == Max(old(version), ver)
    {
      while version < ver
        invariant old(version) <= version <= Max(old(version), ver)
      {
        var _ := IncrementVersion();
      }
    }

    /** One message from the shared channel: catch the version up, then fan the event out. For every
        subscribed stream this is the protocol's action Relay. */
    method Relay(e: Event)
      requires Valid()
      modifies this`version, subscribers
      ensures Valid() && version == Max(old(version), e.version)
      ensures forall q :: q in subscribers ==> q.items == old(q.items) + [e]
      ensures forall q, s: State ::
        q in subscribers && old(Shows(q, s)) && s.channel != [] && s.channel[0] == e ==>
        Shows(q, Apply(s, Action.Relay))
    {
      CatchUp(e.version);
      Publish(e);
    }

    /** Announcing a change without the shared channel: numbered and fanned out in one segment. For
        every subscribed stream these are the protocol's three announcement actions. */
    method PublishPolicyEvent(kind: Kind, id: PolicyId) returns (e: Event)
      requires Valid()
      modifies this`version, subscribers
      ensures Valid() && version == old(version) + 1 && e == Event(kind, id, version)
      ensures forall q :: q in subscribers ==> q.items == old(q.items) + [e]
      ensures forall q, s: State, i: nat ::
        q in subscribers && old(Shows(q, s)) && Unshared(s, i, kind, id) ==> Shows(q, Announced(s, i))
    {
      var v := IncrementVersion();
      e := Event(kind, id, v);
      Publish(e);
    }
  }
}
