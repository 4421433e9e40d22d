/** Insertion-ordered tables of bounded size: once a table is full, new keys are turned away. */
module BoundedTables {
  import opened Sequences

  datatype Slot<K, V> = Slot(key: K, value: V)

  /** How events of type `E` are entered: under which key, and what they do to its value. */
  datatype Policy<!K, !V, !E> = Policy(capacity: nat, key: E -> K, initial: V, apply: (V, E) -> V)

  /** The position of `k`, or the number of slots if it is not there. */
  function Find<K(==), V>(slots: seq<Slot<K, V>>, k: K): (i: nat)
    ensures i <= |slots|
    ensures i < |slots| ==> slots[i].key == k
    ensures forall j :: 0 <= j < i ==> slots[j].key != k
  {
    if slots == [] || slots[0].key == k then 0
    else
      var i := Find(slots[1..], k);
      assert forall j :: 0 < j < i + 1 ==> slots[j] == slots[1..][j - 1];
      i + 1
  }

  predicate Admits<K(==), V, E>(p: Policy<K, V, E>, slots: seq<Slot<K, V>>, e: E) {
    Find(slots, p.key(e)) < |slots| || |slots| < p.capacity
  }

  function Put<K(==), V, E>(p: Policy<K, V, E>, slots: seq<Slot<K, V>>, e: E): seq<Slot<K, V>> {
    var k := p.key(e);
    var i := Find(slots, k);
    if i < |slots| then slots[i := Slot(k, p.apply(slots[i].value, e))]
    else if |slots| < p.capacity then slots + [Slot(k, p.apply(p.initial, e))]
    else slots
  }

  ghost function Table<K, V, E>(p: Policy<K, V, E>, events: seq<E>): seq<Slot<K, V>> {
    if events == [] then [] else Put(p, Table(p, events[..|events| - 1]), events[|events| - 1])
  }

  // ----- what a table holds -----

  ghost function Keys<K, V, E>(p: Policy<K, V, E>, events: seq<E>): seq<K> {
    seq(|events|, i requires 0 <= i < |events| => p.key(events[i]))
  }

  /** The keys that are kept: the first distinct ones, as many as fit. */
  ghost function Kept<K(!new), V, E>(p: Policy<K, V, E>, events: seq<E>): seq<K> {
    Take(Distinct(Keys(p, events)), p.capacity)
  }

  /** The value that the events of `k` alone build up. */
  ghost function ValueOf<K, V, E>(p: Policy<K, V, E>, events: seq<E>, k: K): V {
    if events == [] then p.initial
    else
      var n := |events| - 1;
      var v := ValueOf(p, events[..n], k);
      if p.key(events[n]) == k then p.apply(v, events[n]) else v
  }

  lemma KeysAppend<K, V, E>(p: Policy<K, V, E>, events: seq<E>, e: E)
    ensures Keys(p, events + [e]) == Keys(p, events) + [p.key(e)]
  {
  }

  lemma {:induction false} ValueOfAbsent<K, V, E>(p: Policy<K, V, E>, events: seq<E>, k: K)
    requires k !in Keys(p, events)
    ensures ValueOf(p, events, k) == p.initial
  {
    if events != [] {
      var n := |events| - 1;
      assert Keys(p, events)[n] == p.key(events[n]);
      assert events == events[..n] + [events[n]];
      KeysAppend(p, events[..n], events[n]);
      ValueOfAbsent(p, events[..n], k);
    }
  }

  /** The slots are exactly the kept keys in order, each with the value built from its own events. */
  ghost predicate Holds<K(!new), V, E>(p: Policy<K, V, E>, events: seq<E>, slots: seq<Slot<K, V>>) {
    var kept := Kept(p, events);
    |slots| == |kept| && forall i :: 0 <= i < |kept| ==> slots[i] == Slot(kept[i], ValueOf(p, events, kept[i]))
  }

  lemma {:induction false} TableHolds<K(!new), V, E>(p: Policy<K, V, E>, events: seq<E>)
    ensures Holds(p, events, Table(p, events))
  {
    if events != [] {
      var n := |events| - 1;
      TableHolds(p, events[..n]);
      assert events == events[..n] + [events[n]];
      PutHolds(p, events[..n], events[n], Table(p, events[..n]));
    }
  }

  lemma KeptAppend<K(!new), V, E>(p: Policy<K, V, E>, events: seq<E>, e: E)
    ensures var k, kept := p.key(e), Kept(p, events);
            Kept(p, events + [e]) == if k !in kept && |kept| < p.capacity then kept + [k] else kept
    ensures |Kept(p, events)| < p.capacity ==> (p.key(e) in Kept(p, events) <==> p.key(e) in Keys(p, events))
  {
    KeysAppend(p, events, e);
    DistinctAppend(Keys(p, events), p.key(e));
  }

  lemma ValueAppend<K, V, E>(p: Policy<K, V, E>, events: seq<E>, e: E, k: K)
    ensures ValueOf(p, events + [e], k) == if p.key(e) == k then p.apply(ValueOf(p, events, k), e) else ValueOf(p, events, k)
  {
    assert (events + [e])[..|events|] == events;
  }

  lemma PutHolds<K(!new), V, E>(p: Policy<K, V, E>, events: seq<E>, e: E, slots: seq<Slot<K, V>>)
    requires Holds(p, events, slots)
    ensures Holds(p, events + [e], Put(p, slots, e))
    ensures Admits(p, slots, e) <==> p.key(e) in Kept(p, events + [e])
  {
    hide ValueOf, Keys, Distinct;
    var k, kept := p.key(e), Kept(p, events);
    KeptAppend(p, events, e);
    var i := Find(slots, k);
    assert i < |slots| <==> k in kept;
    forall x ensures ValueOf(p, events + [e], x) == if k == x then p.apply(ValueOf(p, events, x), e) else ValueOf(p, events, x) {
      ValueAppend(p, events, e, x);
    }
    if k !in kept && |kept| < p.capacity {
      ValueOfAbsent(p, events, k);
    }
    KeptDistinct(p, events);
  }

  lemma KeptDistinct<K(!new), V, E>(p: Policy<K, V, E>, events: seq<E>)
    ensures NoDuplicates(Kept(p, events))
  {
  }

  // ----- conservation -----

  /** The events that are turned away. */
  ghost function Dropped<K, V, E>(p: Policy<K, V, E>, events: seq<E>): seq<E> {
    if events == [] then []
    else
      var n := |events| - 1;
      var d := Dropped(p, events[..n]);
      if Admits(p, Table(p, events[..n]), events[n]) then d else d + [events[n]]
  }

  lemma TableAppend<K, V, E>(p: Policy<K, V, E>, events: seq<E>, e: E)
    ensures Table(p, events + [e]) == Put(p, Table(p, events), e)
    ensures Dropped(p, events + [e])
         == if Admits(p, Table(p, events), e) then Dropped(p, events) else Dropped(p, events) + [e]
    ensures !Admits(p, Table(p, events), e) ==> Table(p, events + [e]) == Table(p, events)
  {
    assert (events + [e])[..|events|] == events;
  }

  /** `measure` of a value grows by exactly the `weight` of each event applied to it. */
  ghost predicate Additive<K, V(!new), E(!new)>(p: Policy<K, V, E>, measure: V -> nat, weight: E -> nat) {
    measure(p.initial) == 0 && forall v, e :: measure(p.apply(v, e)) == measure(v) + weight(e)
  }

  function OfValue<K, V>(measure: V -> nat): Slot<K, V> -> nat {
    (s: Slot<K, V>) => measure(s.value)
  }

  lemma PutConserves<K, V(!new), E(!new)>(
    p: Policy<K, V, E>, measure: V -> nat, weight: E -> nat, slots: seq<Slot<K, V>>, e: E)
    requires Additive(p, measure, weight)
    ensures Sum(OfValue(measure), Put(p, slots, e))
         == Sum(OfValue(measure), slots) + if Admits(p, slots, e) then weight(e) else 0
  {
    var i := Find(slots, p.key(e));
    if i < |slots| {
      SumChange(OfValue(measure), OfValue(measure), slots, Put(p, slots, e), i);
    } else if |slots| < p.capacity {
      SumAppend(OfValue(measure), slots, Slot(p.key(e), p.apply(p.initial, e)));
    }
  }

  /** Nothing is lost: what the slots hold and what was turned away add up to all that came in. */
  lemma {:induction false} TableConserves<K, V(!new), E(!new)>(
    p: Policy<K, V, E>, measure: V -> nat, weight: E -> nat, events: seq<E>)
    requires Additive(p, measure, weight)
    ensures Sum(OfValue(measure), Table(p, events)) + Sum(weight, Dropped(p, events)) == Sum(weight, events)
  {
    if events != [] {
      var n := |events| - 1;
      TableConserves(p, measure, weight, events[..n]);
      PutConserves(p, measure, weight, Table(p, events[..n]), events[n]);
      SumAppend(weight, Dropped(p, events[..n]), events[n]);
    }
  }
}
