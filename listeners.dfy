/**
  The subscription registry: listeners each declare one tag; publishing a
  (tag, value) pair calls `publish_val` on every listener with that tag, in
  registration order.  A call is recorded as an `Event` naming the
  listener's position in the registry and the value it received.
 */
module Listeners {
  import opened Wire

  /** A registered listener: the one tag it is interested in. */
  datatype Listener = Listener(tag: seq<byte>)

  /** One call of `publish_val(value)` on the listener at position `listener`. */
  datatype Event = Event(listener: nat, value: seq<byte>)

  /** A validated (tag, value) pair extracted from a frame. */
  datatype Reading = Reading(tag: seq<byte>, value: seq<byte>)

  /**
    The calls made when `tag`/`value` is published to the first `n`
    registered listeners: one per listener whose tag equals `tag`, in
    registration order.
   */
  function Deliveries(listeners: seq<Listener>, n: nat, tag: seq<byte>, value: seq<byte>): (r: seq<Event>)
    requires n <= |listeners|
    ensures |r| <= n
  {
    if n == 0 then []
    else
      var earlier := Deliveries(listeners, n - 1, tag, value);
      if listeners[n - 1].tag == tag then earlier + [Event(n - 1, value)] else earlier
  }

  /** Publishing to the first `n` listeners calls only listeners among them whose tag matches, with the value. */
  lemma {:induction false} DeliveriesMatch(listeners: seq<Listener>, n: nat, tag: seq<byte>, value: seq<byte>)
    requires n <= |listeners|
    ensures forall k :: 0 <= k < |Deliveries(listeners, n, tag, value)| ==>
      && Deliveries(listeners, n, tag, value)[k].listener < n
      && listeners[Deliveries(listeners, n, tag, value)[k].listener].tag == tag
      && Deliveries(listeners, n, tag, value)[k].value == value
  {
    if n > 0 {
      DeliveriesMatch(listeners, n - 1, tag, value);
    }
  }

  /** Publishing calls the listeners in registration order, each at most once. */
  lemma {:induction false} DeliveriesOrdered(listeners: seq<Listener>, n: nat, tag: seq<byte>, value: seq<byte>)
    requires n <= |listeners|
    ensures forall k, l :: 0 <= k < l < |Deliveries(listeners, n, tag, value)| ==>
      Deliveries(listeners, n, tag, value)[k].listener < Deliveries(listeners, n, tag, value)[l].listener
  {
    if n > 0 {
      DeliveriesOrdered(listeners, n - 1, tag, value);
      DeliveriesMatch(listeners, n - 1, tag, value);
    }
  }

  /** Publishing reaches every listener among the first `n` whose tag matches. */
  lemma {:induction false} DeliveriesReach(listeners: seq<Listener>, n: nat, tag: seq<byte>, value: seq<byte>)
    requires n <= |listeners|
    ensures forall i :: 0 <= i < n && listeners[i].tag == tag ==> Event(i, value) in Deliveries(listeners, n, tag, value)
  {
    if n > 0 {
      DeliveriesReach(listeners, n - 1, tag, value);
    }
  }

  /** Publishing to one more listener adds the call to it, if its tag matches. */
  lemma DeliveriesNext(listeners: seq<Listener>, n: nat, tag: seq<byte>, value: seq<byte>)
    requires n < |listeners|
    ensures Deliveries(listeners, n + 1, tag, value)
         == Deliveries(listeners, n, tag, value) + if listeners[n].tag == tag then [Event(n, value)] else []
  {
  }

  /** The calls made by publishing every reading of `readings` in turn. */
  function DispatchAll(listeners: seq<Listener>, readings: seq<Reading>): seq<Event>
  {
    if readings == [] then []
    else Deliveries(listeners, |listeners|, readings[0].tag, readings[0].value)
         + DispatchAll(listeners, readings[1..])
  }

  /**
    Every call made by publishing `readings` goes to a registered listener
    and hands it the value of a reading published under that listener's
    own tag.
   */
  lemma {:induction false} DispatchAllCalls(listeners: seq<Listener>, readings: seq<Reading>)
    ensures forall k :: 0 <= k < |DispatchAll(listeners, readings)| ==>
      && DispatchAll(listeners, readings)[k].listener < |listeners|
      && Reading(listeners[DispatchAll(listeners, readings)[k].listener].tag, DispatchAll(listeners, readings)[k].value) in readings
  {
    if readings != [] {
      var first := Deliveries(listeners, |listeners|, readings[0].tag, readings[0].value);
      var rest := DispatchAll(listeners, readings[1..]);
      DeliveriesMatch(listeners, |listeners|, readings[0].tag, readings[0].value);
      DispatchAllCalls(listeners, readings[1..]);
      assert DispatchAll(listeners, readings) == first + rest;
      assert forall x :: x in readings[1..] ==> x in readings;
      assert Reading(readings[0].tag, readings[0].value) == readings[0];
    }
  }

  /** A tag that no listener declared reaches nobody. */
  lemma {:induction false} UnknownTagReachesNobody(listeners: seq<Listener>, n: nat, tag: seq<byte>, value: seq<byte>)
    requires n <= |listeners|
    requires forall i :: 0 <= i < n ==> listeners[i].tag != tag
    ensures Deliveries(listeners, n, tag, value) == []
  {
    if n > 0 {
      UnknownTagReachesNobody(listeners, n - 1, tag, value);
    }
  }

  /** Deliveries to the first `n` listeners ignore listeners registered later. */
  lemma {:induction false} DeliveriesPrefix(listeners: seq<Listener>, more: seq<Listener>, n: nat, tag: seq<byte>, value: seq<byte>)
    requires n <= |listeners|
    ensures Deliveries(listeners + more, n, tag, value) == Deliveries(listeners, n, tag, value)
  {
    if n > 0 {
      assert (listeners + more)[n - 1] == listeners[n - 1];
      DeliveriesPrefix(listeners, more, n - 1, tag, value);
    }
  }

  /**
    Registering a listener keeps every earlier delivery, in the same order,
    and adds exactly one call to the new listener when its tag matches: no
    deduplication, no reordering.
   */
  lemma RegisterAppendsDelivery(listeners: seq<Listener>, l: Listener, tag: seq<byte>, value: seq<byte>)
    ensures Deliveries(listeners + [l], |listeners| + 1, tag, value)
         == Deliveries(listeners, |listeners|, tag, value)
            + (if l.tag == tag then [Event(|listeners|, value)] else [])
  {
    DeliveriesPrefix(listeners, [l], |listeners|, tag, value);
  }

  /** Publishing one reading after another delivers the first reading's calls first. */
  lemma {:induction false} DispatchAllAppend(listeners: seq<Listener>, a: seq<Reading>, b: seq<Reading>)
    ensures DispatchAll(listeners, a + b) == DispatchAll(listeners, a) + DispatchAll(listeners, b)
  {
    if a == [] {
      assert a + b == b;
    } else {
      assert (a + b)[1..] == a[1..] + b;
      DispatchAllAppend(listeners, a[1..], b);
    }
  }

  /** Publishing no reading calls nobody. */
  lemma DispatchNothing(listeners: seq<Listener>)
    ensures DispatchAll(listeners, []) == []
  {
  }

  /** Publishing a reading ahead of others delivers its calls first. */
  lemma DispatchAllCons(listeners: seq<Listener>, r: Reading, rest: seq<Reading>)
    ensures DispatchAll(listeners, [r] + rest)
         == Deliveries(listeners, |listeners|, r.tag, r.value) + DispatchAll(listeners, rest)
  {
    assert ([r] + rest)[1..] == rest;
  }
}
