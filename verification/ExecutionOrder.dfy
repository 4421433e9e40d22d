/** Snapshots of permuted traces are equal, as long as nothing overflows and every
    script is loaded before its opcodes are counted. */
module ExecutionOrder {
  import opened Sequences
  import opened ExecutionProfile
  import opened ExecutionSummary
  import opened ExecutionSnapshot

  ghost function Events(trace: Trace): multiset<Event> {
    match trace
    case Start => multiset{}
    case After(earlier, e) => Events(earlier) + multiset{e}
  }

  ghost function CountIf(trace: Trace, p: Event -> bool): nat {
    match trace
    case Start => 0
    case After(earlier, e) => CountIf(earlier, p) + if p(e) then 1 else 0
  }

  /** The trace without the latest occurrence of `e`. */
  ghost function Without(trace: Trace, e: Event): Trace {
    match trace
    case Start => Start
    case After(earlier, x) => if x == e then earlier else After(Without(earlier, e), x)
  }

  lemma {:induction false} WithoutEvent(trace: Trace, e: Event, p: Event -> bool)
    requires e in Events(trace)
    ensures Events(Without(trace, e)) == Events(trace) - multiset{e}
    ensures CountIf(trace, p) == CountIf(Without(trace, e), p) + if p(e) then 1 else 0
  {
    if trace.event != e {
      WithoutEvent(trace.earlier, e, p);
    }
  }

  /** How many events meet a condition does not depend on their order. */
  lemma {:induction false} CountIfPermutes(t: Trace, u: Trace, p: Event -> bool)
    requires Events(t) == Events(u)
    ensures CountIf(t, p) == CountIf(u, p)
  {
    match t
    case Start =>
      assert u.Start?;
    case After(earlier, e) =>
      assert e in Events(u);
      WithoutEvent(u, e, p);
      assert Events(earlier) == Events(Without(u, e));
      CountIfPermutes(earlier, Without(u, e), p);
  }

  // ----- what the counters are in terms of the events alone -----

  ghost function OpOf(k: Key): Event -> bool {
    (e: Event) => e.Op? && e.key == k
  }

  ghost function LoadOf(k: Key): Event -> bool {
    (e: Event) => e.Load? && e.key == k
  }

  ghost function OpcodeIs(b: Opcode): Event -> bool {
    (e: Event) => e.Op? && e.opcode == b
  }

  ghost function OpOutside(loaded: iset<Key>): Event -> bool {
    (e: Event) => e.Op? && e.key !in loaded
  }

  /** Scripts that are loaded at all are loaded before their first opcode. */
  ghost predicate LoadedFirst(trace: Trace, loaded: iset<Key>) {
    match trace
    case Start => true
    case After(earlier, e) =>
      LoadedFirst(earlier, loaded) && (e.Op? && e.key in loaded ==> e.key in LoadedKeys(earlier))
  }

  ghost function EverLoaded(trace: Trace): iset<Key> {
    iset k | k in LoadedKeys(trace)
  }

  ghost predicate WithinBounds(trace: Trace) {
    && |Distinct(LoadedKeys(trace))| <= MAX_PROFILED_SCRIPTS
    && forall k :: |Distinct(Offsets(trace, k))| <= MAX_PROFILED_ENTRY_POINTS
  }

  lemma {:induction false} LoadsByEvents(trace: Trace, k: Key, o: nat)
    ensures multiset(Offsets(trace, k))[o] == Events(trace)[Load(k, o)]
    ensures |Offsets(trace, k)| == CountIf(trace, LoadOf(k))
    ensures k in LoadedKeys(trace) <==> 0 < |Offsets(trace, k)|
  {
    if trace.After? {
      LoadsByEvents(trace.earlier, k, o);
    }
  }

  lemma {:induction false} OpsByEvents(trace: Trace, k: Key, b: Opcode, loaded: iset<Key>)
    requires LoadedFirst(trace, loaded)
    ensures k in loaded ==> CountedOps(trace, k) == CountIf(trace, OpOf(k))
    ensures OpcodeOccurrences(trace, b) == CountIf(trace, OpcodeIs(b))
  {
    if trace.After? {
      OpsByEvents(trace.earlier, k, b, loaded);
    }
  }

  lemma {:induction false} DistinctGrows(trace: Trace)
    requires trace.After?
    ensures |Distinct(LoadedKeys(trace.earlier))| <= |Distinct(LoadedKeys(trace))|
  {
    if trace.event.Load? {
      DistinctAppend(LoadedKeys(trace.earlier), trace.event.key);
    }
  }

  /** Within the bounds nothing overflows but the opcodes of scripts that are never loaded. */
  lemma {:induction false} OverflowByEvents(trace: Trace, loaded: iset<Key>)
    requires |Distinct(LoadedKeys(trace))| <= MAX_PROFILED_SCRIPTS
    requires LoadedFirst(trace, loaded) && forall k :: k in LoadedKeys(trace) ==> k in loaded
    ensures OtherLoads(trace) == 0
    ensures OtherOps(trace) == CountIf(trace, OpOutside(loaded))
  {
    if trace.After? {
      DistinctGrows(trace);
      OverflowByEvents(trace.earlier, loaded);
    }
  }

  /** Within the bounds the entries are all loaded offsets with their number of loads. */
  lemma EntriesByEvents(trace: Trace, k: Key, e: Entry)
    requires |Distinct(Offsets(trace, k))| <= MAX_PROFILED_ENTRY_POINTS
    ensures e in EntriesOf(Offsets(trace, k)) <==> 0 < e.loads == Events(trace)[Load(k, e.offset)]
  {
    var offsets := Offsets(trace, k);
    LoadsByEvents(trace, k, e.offset);
    assert e.offset in offsets <==> e.offset in multiset(offsets);
    assert KeptOffsets(offsets) == Distinct(offsets);
    if e.offset in offsets {
      var i :| 0 <= i < |Distinct(offsets)| && Distinct(offsets)[i] == e.offset;
      assert EntriesOf(offsets)[i].offset == e.offset;
    }
  }

  lemma {:induction false} NothingOutside(offsets: seq<nat>, kept: seq<nat>)
    requires forall o :: o in offsets ==> o in kept
    ensures CountOutside(offsets, kept) == 0
  {
    if offsets != [] {
      NothingOutside(offsets[..|offsets| - 1], kept);
    }
  }

  // ----- permuted traces -----

  ghost predicate Orderly(trace: Trace) {
    Length(trace) < U64_LIMIT && WithinBounds(trace) && LoadedFirst(trace, EverLoaded(trace))
  }

  lemma SameLoaded(t: Trace, u: Trace)
    requires Events(t) == Events(u)
    ensures EverLoaded(t) == EverLoaded(u)
  {
    forall k ensures k in LoadedKeys(t) <==> k in LoadedKeys(u) {
      LoadsByEvents(t, k, 0);
      LoadsByEvents(u, k, 0);
      CountIfPermutes(t, u, LoadOf(k));
    }
  }

  /** The counters of one script in two permuted traces differ in the order of their entries only. */
  lemma SameCounters(t: Trace, u: Trace, k: Key, c: Counters)
    requires Orderly(t) && Orderly(u) && Events(t) == Events(u) && k in LoadedKeys(t)
    requires SortedCounters(c, CountersFor(CountedOps(t, k), Offsets(t, k)))
    ensures SortedCounters(c, CountersFor(CountedOps(u, k), Offsets(u, k)))
  {
    hide EntriesOf, LoadedFirst, Distinct, Events, CountedOps, LoadedKeys;
    SameLoaded(t, u);
    OpsByEvents(t, k, 0, EverLoaded(t));
    OpsByEvents(u, k, 0, EverLoaded(u));
    CountIfPermutes(t, u, OpOf(k));
    LoadsByEvents(t, k, 0);
    LoadsByEvents(u, k, 0);
    CountIfPermutes(t, u, LoadOf(k));
    NothingOutside(Offsets(t, k), KeptOffsets(Offsets(t, k)));
    NothingOutside(Offsets(u, k), KeptOffsets(Offsets(u, k)));
    forall e ensures e in EntriesOf(Offsets(t, k)) <==> e in EntriesOf(Offsets(u, k)) {
      EntriesByEvents(t, k, e);
      EntriesByEvents(u, k, e);
    }
  }

  lemma SameTotals(t: Trace, u: Trace)
    requires Orderly(t) && Orderly(u) && Events(t) == Events(u)
    ensures var a, b := Run(t), Run(u); a.(scripts := map[]) == b.(scripts := map[]) && a.scripts.Keys == b.scripts.Keys
  {
    hide Run, CountersFor, LoadedFirst, Distinct;
    RunSummary(t);
    RunSummary(u);
    SameLoaded(t, u);
    var loaded := EverLoaded(t);
    OverflowByEvents(t, loaded);
    OverflowByEvents(u, loaded);
    CountIfPermutes(t, u, OpOutside(loaded));
    forall b: Opcode ensures OpcodeOccurrences(t, b) == OpcodeOccurrences(u, b) {
      OpsByEvents(t, Key(seq(20, _ => 0), 0), b, loaded);
      OpsByEvents(u, Key(seq(20, _ => 0), 0), b, loaded);
      CountIfPermutes(t, u, OpcodeIs(b));
    }
    assert Run(t).opcodeCounts == Run(u).opcodeCounts;
    forall k ensures k in Run(t).scripts <==> k in Run(u).scripts {
      assert k in loaded <==> k in LoadedKeys(t);
      assert k in EverLoaded(u) <==> k in LoadedKeys(u);
    }
  }

  lemma SnapshotOfPermutation(t: Trace, u: Trace, p: Profile)
    requires Orderly(t) && Orderly(u) && Events(t) == Events(u) && IsSnapshot(Run(t), p)
    ensures IsSnapshot(Run(u), p)
  {
    hide Run, SortedCounters, Distinct, Events;
    SameTotals(t, u);
    forall sp | sp in p.scripts ensures SortedCounters(sp.counters, Run(u).scripts[sp.key]) {
      SameScriptCounters(t, u, sp.key, sp.counters);
    }
  }

  lemma SameScriptCounters(t: Trace, u: Trace, k: Key, c: Counters)
    requires Orderly(t) && Orderly(u) && Events(t) == Events(u) && k in Run(t).scripts && k in Run(u).scripts
    requires SortedCounters(c, Run(t).scripts[k])
    ensures SortedCounters(c, Run(u).scripts[k])
  {
    hide Run, CountersFor, SortedCounters, Events;
    RunSummary(t);
    RunSummary(u);
    SameLoaded(t, u);
    SameCounters(t, u, k, c);
  }

  /** Two orderly traces of the same events have the same snapshot. */
  lemma SnapshotIgnoresOrder(t: Trace, u: Trace, p: Profile, q: Profile)
    requires Orderly(t) && Orderly(u) && Events(t) == Events(u)
    requires IsSnapshot(Run(t), p) && IsSnapshot(Run(u), q)
    ensures p == q
  {
    SnapshotOfPermutation(t, u, p);
    SnapshotUnique(Run(u), p, q);
  }
}
