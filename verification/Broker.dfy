/** The event broker: one-slot channels that keep the newest event, with
    receivers that may run between any two channel operations of the sender. */
module BrokerObject {
  import opened Domain

  datatype Event = Event(sequence: nat, name: string)

  /** The newest sequence number taken, or `low` before the first one. */
  function Newest(taken: seq<Event>, low: nat): nat
  {
    if taken == [] then low else taken[|taken| - 1].sequence
  }

  /** Sequence numbers above `low`, each larger than the one before. */
  predicate Rising(taken: seq<Event>, low: nat)
  {
    taken == [] ||
    (Rising(taken[..|taken| - 1], low) && Newest(taken[..|taken| - 1], low) < taken[|taken| - 1].sequence)
  }

  lemma {:induction false} RisingIsIncreasing(taken: seq<Event>, low: nat)
    requires Rising(taken, low)
    ensures forall i :: 0 <= i < |taken| ==> low < taken[i].sequence <= Newest(taken, low)
    ensures forall i, j :: 0 <= i < j < |taken| ==> taken[i].sequence < taken[j].sequence
  {
    if taken != [] {
      var shorter := taken[..|taken| - 1];
      RisingIsIncreasing(shorter, low);
      assert forall i :: 0 <= i < |shorter| ==> taken[i] == shorter[i];
    }
  }

  /** A channel with one slot, what its receiver has taken so far, and the last
      event recorded before it was made. */
  datatype Stream = Stream(buffer: Option<Event>, closed: bool, received: seq<Event>, since: nat)
  {
    /** The newest event taken, or the last one before the subscription. */
    function Seen(): nat
    {
      Newest(received, since)
    }

    /** Taking the buffered event. */
    function Taken(): Stream
      requires buffer.Some?
    {
      this.(buffer := None, received := received + [buffer.value])
    }

    /** The receiver sees strictly increasing sequence numbers, and what is
        buffered is newer than what it has seen. */
    predicate InOrder(newest: nat)
    {
      && Rising(received, since) && Seen() <= newest
      && (buffer.Some? ==> Seen() < buffer.value.sequence <= newest)
    }

    /** The newest event since the subscription is buffered or was the last one
        received. */
    predicate UpToDate(newest: nat)
    {
      if buffer.Some? then buffer.value.sequence == newest else Seen() == newest
    }
  }

  lemma TakingKeepsOrder(s: Stream, newest: nat)
    requires s.InOrder(newest) && s.buffer.Some?
    ensures s.Taken().InOrder(newest) && s.Taken().Seen() == s.buffer.value.sequence
    ensures s.UpToDate(newest) ==> s.Taken().UpToDate(newest)
  {
  }

  /** The receiver has taken what was buffered or has not run. */
  ghost predicate RacedOne(before: Stream, after: Stream)
  {
    after == before || (before.buffer.Some? && after == before.Taken())
  }

  /** Streams other than `except` were touched by their receivers only. */
  ghost predicate Raced(before: map<nat, Stream>, after: map<nat, Stream>, except: nat)
  {
    before.Keys == after.Keys && forall id :: id in before && id != except ==> RacedOne(before[id], after[id])
  }

  lemma RacedTransitive(a: map<nat, Stream>, b: map<nat, Stream>, c: map<nat, Stream>, except: nat)
    requires Raced(a, b, except) && Raced(b, c, except)
    ensures Raced(a, c, except)
  {
  }

  /** One more receiver may have run, and no other. */
  lemma OneMoreRaced(before: map<nat, Stream>, now: map<nat, Stream>, after: map<nat, Stream>, id: nat)
    requires Raced(before, now, 0) && id in now && now[id] == before[id]
    requires after == now || (now[id].buffer.Some? && after == now[id := now[id].Taken()])
    ensures Raced(before, after, 0) && forall k :: k in now && k != id ==> after[k] == now[k]
  {
  }

  /** Everything buffered or seen is older than event n. */
  predicate Behind(s: Stream, n: nat)
  {
    s.Seen() < n && (s.buffer.Some? ==> s.buffer.value.sequence < n)
  }

  /** The event is in the slot or was the last one taken. */
  predicate Offered(s: Stream, event: Event)
  {
    if s.buffer.Some? then s.buffer.value == event
    else s.received != [] && s.received[|s.received| - 1] == event
  }

  lemma RacingChangesLittle(s: Stream, t: Stream, n: nat, event: Event)
    requires RacedOne(s, t)
    ensures Behind(s, n) ==> Behind(t, n)
    ensures Offered(s, event) ==> Offered(t, event)
  {
  }

  /** What a receiver has taken stays taken, and the subscription is the same. */
  predicate Extends(s: Stream, t: Stream)
  {
    s.received <= t.received && t.since == s.since && t.closed == s.closed
  }

  /** Every stream is extended by its receiver, if at all. */
  ghost predicate AllExtended(before: map<nat, Stream>, after: map<nat, Stream>)
  {
    before.Keys == after.Keys && forall id :: id in before ==> Extends(before[id], after[id])
  }

  lemma RacedExtends(before: map<nat, Stream>, after: map<nat, Stream>, id: nat)
    requires Raced(before, after, id) && id in before && Extends(before[id], after[id])
    ensures AllExtended(before, after)
  {
    forall k | k in before && k != id
      ensures Extends(before[k], after[k])
    {
      assert RacedOne(before[k], after[k]);
    }
  }

  class Broker {
    var closed: bool
    var nextClient: nat
    var nextEvent: nat
    /** The subscribed clients. */
    var subscribers: set<nat>
    /** Every channel handed out, by client. */
    var streams: map<nat, Stream>

    /** Holds at every moment, also while an event is being recorded. */
    ghost predicate Sane()
      reads this
    {
      && (forall id :: id in streams ==> 0 < id <= nextClient && streams[id].InOrder(nextEvent))
      && subscribers <= streams.Keys
      && (forall id :: id in streams ==> (streams[id].closed <==> id !in subscribers))
      && (closed ==> subscribers == {})
    }

    /** Holds whenever the mutex is free. */
    ghost predicate Valid()
      reads this
    {
      Sane() && forall id :: id in subscribers ==> streams[id].UpToDate(nextEvent)
    }

    constructor ()
      ensures Valid() && !closed && nextEvent == 0 && subscribers == {} && streams == map[]
    {
      closed, nextClient, nextEvent, subscribers, streams := false, 0, 0, {}, map[];
    }

    /** One receiver takes what is buffered, if anything. */
    method Receive(id: nat) returns (event: Option<Event>)
      requires Sane() && id in streams
      modifies this`streams
      ensures Sane() && event == old(streams)[id].buffer
      ensures streams == if event.Some? then old(streams)[id := old(streams)[id].Taken()] else old(streams)
      ensures old(Valid()) ==> Valid()
    {
      event := streams[id].buffer;
      if event.Some? {
        TakingKeepsOrder(streams[id], nextEvent);
        streams := streams[id := streams[id].Taken()];
      }
    }

    /** Any of the receivers run. Only the sender fills a slot, so each receiver
        takes at most one event before the sender goes on. */
    method Receivers()
      requires Sane()
      modifies this`streams
      ensures Sane() && Raced(old(streams), streams, 0)
    {
      ghost var before := streams;
      var todo := streams.Keys;
      while todo != {}
        invariant todo <= before.Keys && Sane() && Raced(before, streams, 0)
        invariant forall id :: id in todo ==> streams[id] == before[id]
        decreases todo
      {
        var id :| id in todo;
        todo := todo - {id};
        ghost var now := streams;
        if * {
          var event := Receive(id);
        }
        OneMoreRaced(before, now, streams, id);
      }
    }

    /** A send without waiting on an open channel. */
    method Send(id: nat, event: Event) returns (sent: bool)
      requires Sane() && id in streams && !streams[id].closed
      requires streams[id].Seen() < event.sequence <= nextEvent
      modifies this`streams
      ensures Sane() && sent == old(streams)[id].buffer.None?
      ensures streams == if sent then old(streams)[id := old(streams)[id].(buffer := Some(event))] else old(streams)
    {
      sent := streams[id].buffer.None?;
      if sent {
        streams := streams[id := streams[id].(buffer := Some(event))];
      }
    }

    /** Closing a channel twice is an error, so it must be open. */
    method CloseStream(id: nat)
      requires id in streams && !streams[id].closed
      modifies this`streams
      ensures streams == old(streams)[id := old(streams)[id].(closed := true)]
    {
      streams := streams[id := streams[id].(closed := true)];
    }

    /** Receivers run, then the sender tries to send. */
    method Attempt(id: nat, event: Event) returns (sent: bool)
      requires Sane() && id in subscribers && event.sequence == nextEvent && Behind(streams[id], nextEvent)
      modifies this`streams
      ensures Sane() && Raced(old(streams), streams, id)
      ensures Extends(old(streams)[id], streams[id])
      ensures old(streams)[id].buffer.None? ==> sent
      ensures if sent then streams[id].buffer == Some(event) else Behind(streams[id], nextEvent)
    {
      Receivers();
      assert RacedOne(old(streams)[id], streams[id]);
      sent := Send(id, event);
    }

    /** Receivers run, then the sender empties the slot. */
    method MakeRoom(id: nat)
      requires Sane() && id in subscribers && Behind(streams[id], nextEvent)
      modifies this`streams
      ensures Sane() && Raced(old(streams), streams, id)
      ensures Extends(old(streams)[id], streams[id])
      ensures streams[id].buffer.None? && Behind(streams[id], nextEvent)
    {
      Receivers();
      assert RacedOne(old(streams)[id], streams[id]);
      Drain(id);
    }

    /** Delivers one event to one subscriber: send; if the slot is taken, empty
        it and send again. The second send never fails. */
    method Deliver(id: nat, event: Event) returns (delivered: bool)
      requires Sane() && id in subscribers && event.sequence == nextEvent && Behind(streams[id], nextEvent)
      modifies this`streams
      ensures Sane() && Raced(old(streams), streams, id)
      ensures Extends(old(streams)[id], streams[id])
      ensures delivered && streams[id].buffer == Some(event)
    {
      delivered := Attempt(id, event);
      if !delivered {
        ghost var first := streams;
        MakeRoom(id);
        RacedTransitive(old(streams), first, streams, id);
        ghost var second := streams;
        delivered := Attempt(id, event);
        RacedTransitive(old(streams), second, streams, id);
      }
    }

    /** A receive without waiting, by the sender: the event is lost. */
    method Drain(id: nat)
      requires Sane() && id in streams
      modifies this`streams
      ensures Sane()
      ensures streams == old(streams)[id := old(streams)[id].(buffer := None)]
    {
      if streams[id].buffer.Some? {
        streams := streams[id := streams[id].(buffer := None)];
      }
    }

    /** Numbers an event and offers it to every subscriber in any order, while
        receivers run. Afterwards it is buffered for, or was just taken by,
        every subscriber; no second send was ever refused. */
    method Record(name: string) returns (refused: bool)
      requires Valid()
      modifies this`nextEvent, this`streams
      ensures Valid() && !refused
      ensures nextEvent == if closed then old(nextEvent) else old(nextEvent) + 1
      ensures closed ==> streams == old(streams)
      ensures AllExtended(old(streams), streams)
      ensures !closed ==> forall id :: id in subscribers ==>
                Offered(streams[id], Event(nextEvent, name))
    {
      refused := false;
      if closed {
        return;
      }
      nextEvent := nextEvent + 1;
      refused := Broadcast(Event(nextEvent, name));
    }

    /** The loop over the subscribers. */
    method Broadcast(event: Event) returns (refused: bool)
      requires Sane() && event.sequence == nextEvent && forall id :: id in subscribers ==>
               Behind(streams[id], nextEvent)
      modifies this`streams
      ensures Sane() && !refused && AllExtended(old(streams), streams)
      ensures forall id :: id in subscribers ==> Offered(streams[id], event)
    {
      refused := false;
      var todo := subscribers;
      while todo != {}
        invariant todo <= subscribers && Sane() && !refused && AllExtended(old(streams), streams)
        invariant forall id :: id in todo ==> Behind(streams[id], nextEvent)
        invariant forall id :: id in subscribers - todo ==> Offered(streams[id], event)
        decreases todo
      {
        var id :| id in todo;
        ghost var before := streams;
        var delivered := Deliver(id, event);
        RacedExtends(before, streams, id);
        forall k | k in subscribers && k != id
          ensures Behind(before[k], nextEvent) ==> Behind(streams[k], nextEvent)
          ensures Offered(before[k], event) ==> Offered(streams[k], event)
        {
          RacingChangesLittle(before[k], streams[k], nextEvent, event);
        }
        todo := todo - {id};
        refused := refused || !delivered;
      }
    }

    /** Opens a subscription, or returns None, a closed channel, once the broker
        is closed. The new stream has nothing buffered and sees later events. */
    method Subscribe() returns (client: Option<nat>)
      requires Valid()
      modifies this`nextClient, this`subscribers, this`streams
      ensures Valid()
      ensures closed ==> client == None && streams == old(streams) && subscribers == old(subscribers)
      ensures !closed ==>
                && client.Some? && client.value !in old(streams)
                && subscribers == old(subscribers) + {client.value}
                && streams == old(streams)[client.value := Stream(None, false, [], nextEvent)]
    {
      if closed {
        return None;
      }
      nextClient := nextClient + 1;
      streams := streams[nextClient := Stream(None, false, [], nextEvent)];
      subscribers := subscribers + {nextClient};
      client := Some(nextClient);
    }

    /** The function that Subscribe returns: closes the channel unless that has
        happened already, here or in Close. */
    method Cancel(client: nat)
      requires Valid() && client in streams
      modifies this`subscribers, this`streams
      ensures Valid() && subscribers == old(subscribers) - {client}
      ensures streams == old(streams)[client := old(streams)[client].(closed := true)]
    {
      if client in subscribers {
        subscribers := subscribers - {client};
        CloseStream(client);
      }
    }

    /** Ends all subscriptions and refuses new ones. */
    method Close()
      requires Valid()
      modifies this`closed, this`subscribers, this`streams
      ensures Valid() && closed && subscribers == {}
      ensures streams.Keys == old(streams).Keys
      ensures forall id :: id in streams ==> streams[id] == old(streams)[id].(closed := true)
    {
      if closed {
        return;
      }
      closed := true;
      while subscribers != {}
        invariant closed && subscribers <= old(subscribers) && streams.Keys == old(streams).Keys
        invariant forall id :: id in streams ==>
                    streams[id] == if id in subscribers then old(streams)[id] else old(streams)[id].(closed := true)
        decreases subscribers
      {
        var id :| id in subscribers;
        CloseStream(id);
        subscribers := subscribers - {id};
      }
    }
  }
}
