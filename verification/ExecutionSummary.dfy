/** What the collector's state is after a trace, said without replaying it, and the
    conservation laws that follow. */
module ExecutionSummary {
  import opened Sequences
  import opened ExecutionProfile

  ghost function CountOutside(offsets: seq<nat>, kept: seq<nat>): nat {
    if offsets == [] then 0
    else CountOutside(offsets[..|offsets| - 1], kept) + if offsets[|offsets| - 1] in kept then 0 else 1
  }

  /** The loads of a script at offsets that are not kept. */
  ghost function Spilled(offsets: seq<nat>): nat {
    CountOutside(offsets, KeptOffsets(offsets))
  }

  /** The counters of a script that was loaded at `offsets` and then counted `instructions` opcodes. */
  ghost function CountersFor(instructions: nat, offsets: seq<nat>): Counters {
    Counters(instructions, |offsets|, EntriesOf(offsets), Spilled(offsets))
  }

  /** Opcodes of scripts that were not kept when they ran. */
  ghost function OtherOps(trace: Trace): nat {
    match trace
    case Start => 0
    case After(earlier, e) => OtherOps(earlier) + if e.Op? && e.key !in Retained(earlier) then 1 else 0
  }

  /** Context loads of scripts that were not among the first 64. */
  ghost function OtherLoads(trace: Trace): nat {
    match trace
    case Start => 0
    case After(earlier, e) => OtherLoads(earlier) + if e.Load? && e.key !in Retained(trace) then 1 else 0
  }

  ghost function Summary(trace: Trace): State {
    State(
      OpcodeCounts(trace),
      map k | k in Retained(trace) :: CountersFor(CountedOps(trace, k), Offsets(trace, k)),
      OtherOps(trace),
      OtherLoads(trace))
  }

  // ----- one script -----

  lemma {:induction false} CountOutsideStep(offsets: seq<nat>, kept: seq<nat>, o: nat)
    ensures CountOutside(offsets, kept) <= |offsets|
    ensures CountOutside(offsets + [o], kept) == CountOutside(offsets, kept) + if o in kept then 0 else 1
    ensures o !in offsets ==> CountOutside(offsets, kept + [o]) == CountOutside(offsets, kept)
  {
    assert (offsets + [o])[..|offsets|] == offsets;
    if offsets != [] {
      var n := |offsets| - 1;
      assert offsets == offsets[..n] + [offsets[n]];
      CountOutsideStep(offsets[..n], kept, o);
    }
  }

  lemma KeptStep(offsets: seq<nat>, o: nat)
    ensures var kept := KeptOffsets(offsets);
            KeptOffsets(offsets + [o]) ==
            if o in kept || MAX_PROFILED_ENTRY_POINTS <= |kept| then kept else kept + [o]
    ensures o !in KeptOffsets(offsets) && |KeptOffsets(offsets)| < MAX_PROFILED_ENTRY_POINTS ==> o !in offsets
    ensures NoDuplicates(KeptOffsets(offsets))
  {
    DistinctAppend(offsets, o);
  }

  lemma MultiplicityStep(s: seq<nat>, o: nat)
    ensures forall x :: multiset(s + [o])[x] == multiset(s)[x] + if x == o then 1 else 0
    ensures o !in s ==> multiset(s)[o] == 0
    ensures forall x :: multiset(s)[x] <= |s|
  {
    assert multiset(s + [o]) == multiset(s) + multiset{o};
    forall x ensures multiset(s)[x] <= |s| {
      assert multiset(s)[x := 0] + multiset{}[x := multiset(s)[x]] == multiset(s);
    }
  }

  /** A load at a kept offset counts in its entry. */
  lemma EntryHit(offsets: seq<nat>, o: nat, i: int)
    requires 0 <= i < |KeptOffsets(offsets)| && KeptOffsets(offsets)[i] == o
    ensures var e := EntriesOf(offsets); EntriesOf(offsets + [o]) == e[i := Entry(o, e[i].loads + 1)]
    ensures Spilled(offsets + [o]) == Spilled(offsets)
  {
    KeptStep(offsets, o);
    MultiplicityStep(offsets, o);
    CountOutsideStep(offsets, KeptOffsets(offsets), o);
  }

  /** A load at a new offset opens an entry while there is room. */
  lemma EntryNew(offsets: seq<nat>, o: nat)
    requires o !in KeptOffsets(offsets) && |KeptOffsets(offsets)| < MAX_PROFILED_ENTRY_POINTS
    ensures EntriesOf(offsets + [o]) == EntriesOf(offsets) + [Entry(o, 1)]
    ensures Spilled(offsets + [o]) == Spilled(offsets)
  {
    KeptStep(offsets, o);
    MultiplicityStep(offsets, o);
    CountOutsideStep(offsets, KeptOffsets(offsets), o);
    CountOutsideStep(offsets, KeptOffsets(offsets) + [o], o);
  }

  /** Without room, a load at another offset only spills. */
  lemma EntrySpill(offsets: seq<nat>, o: nat)
    requires o !in KeptOffsets(offsets) && MAX_PROFILED_ENTRY_POINTS <= |KeptOffsets(offsets)|
    ensures EntriesOf(offsets + [o]) == EntriesOf(offsets)
    ensures Spilled(offsets + [o]) == Spilled(offsets) + 1
  {
    KeptStep(offsets, o);
    MultiplicityStep(offsets, o);
    CountOutsideStep(offsets, KeptOffsets(offsets), o);
  }

  /** Recording one more load is what the closed form says. */
  lemma RecordLoadSummary(instructions: nat, offsets: seq<nat>, o: nat)
    requires |offsets| + 1 < U64_LIMIT
    ensures RecordLoad(CountersFor(instructions, offsets), o) == CountersFor(instructions, offsets + [o])
  {
    var entries, kept := EntriesOf(offsets), KeptOffsets(offsets);
    var i := FindEntry(entries, o);
    MultiplicityStep(offsets, o);
    if i < |entries| {
      EntryHit(offsets, o, i);
    } else {
      forall k | 0 <= k < |kept| ensures kept[k] != o {
        assert entries[k].offset == kept[k];
      }
      if |kept| < MAX_PROFILED_ENTRY_POINTS {
        EntryNew(offsets, o);
      } else {
        EntrySpill(offsets, o);
        CountOutsideStep(offsets, kept, o);
      }
    }
  }

  ghost predicate EntriesConserve(offsets: seq<nat>) {
    Sum(LoadsOf, EntriesOf(offsets)) + Spilled(offsets) == |offsets|
  }

  lemma EntriesConserveStep(offsets: seq<nat>, o: nat)
    requires EntriesConserve(offsets)
    ensures EntriesConserve(offsets + [o])
  {
    hide KeptOffsets, Spilled, Sum;
    var entries, kept := EntriesOf(offsets), KeptOffsets(offsets);
    if o in kept {
      var i :| 0 <= i < |kept| && kept[i] == o;
      EntryHit(offsets, o, i);
      SumChange(LoadsOf, LoadsOf, entries, EntriesOf(offsets + [o]), i);
    } else if |kept| < MAX_PROFILED_ENTRY_POINTS {
      EntryNew(offsets, o);
      SumAppend(LoadsOf, entries, Entry(o, 1));
    } else {
      EntrySpill(offsets, o);
    }
  }

  /** Every load of a script is in one of its entries or in its entry overflow. */
  lemma {:induction false} EntryLoadsConserved(offsets: seq<nat>)
    ensures EntriesConserve(offsets)
  {
    if offsets != [] {
      var n := |offsets| - 1;
      assert offsets == offsets[..n] + [offsets[n]];
      EntryLoadsConserved(offsets[..n]);
      EntriesConserveStep(offsets[..n], offsets[n]);
    }
  }

  // ----- all scripts -----

  lemma RetainedKeys(trace: Trace)
    ensures NoDuplicates(Retained(trace)) && |Retained(trace)| <= MAX_PROFILED_SCRIPTS
    ensures forall k :: k in Retained(trace) ==> k in LoadedKeys(trace)
    ensures |Retained(trace)| < MAX_PROFILED_SCRIPTS ==> forall k :: k in LoadedKeys(trace) ==> k in Retained(trace)
  {
  }

  lemma RetainedStep(trace: Trace, e: Event)
    ensures var kept := Retained(trace);
            Retained(After(trace, e)) ==
            if e.Load? && e.key !in kept && |kept| < MAX_PROFILED_SCRIPTS then kept + [e.key] else kept
  {
    DistinctAppend(LoadedKeys(trace), e.key);
  }

  lemma {:induction false} NeverLoaded(trace: Trace, k: Key)
    requires k !in LoadedKeys(trace)
    ensures Offsets(trace, k) == [] && CountedOps(trace, k) == 0
  {
    if trace.After? {
      NeverLoaded(trace.earlier, k);
    }
  }

  lemma {:induction false} CountsWithinTrace(trace: Trace, k: Key, b: Opcode)
    ensures |Offsets(trace, k)| <= Length(trace) && CountedOps(trace, k) <= Length(trace)
    ensures OtherOps(trace) <= Length(trace) && OtherLoads(trace) <= Length(trace)
    ensures OpcodeOccurrences(trace, b) <= Length(trace)
  {
    if trace.After? {
      CountsWithinTrace(trace.earlier, k, b);
    }
  }

  ghost predicate SummaryScripts(s: map<Key, Counters>, trace: Trace) {
    && (forall k :: k in s <==> k in Retained(trace))
    && (forall k :: k in s ==> s[k] == CountersFor(CountedOps(trace, k), Offsets(trace, k)))
  }

  lemma KeysCount(s: map<Key, Counters>, keys: seq<Key>)
    requires NoDuplicates(keys) && forall k :: k in s <==> k in keys
    ensures |s| == |keys|
  {
    SetOfDistinct(s.Keys, keys);
  }

  lemma {:induction false} SetOfDistinct(members: set<Key>, keys: seq<Key>)
    requires NoDuplicates(keys) && forall k :: k in members <==> k in keys
    ensures |members| == |keys|
  {
    if keys == [] {
      assert members == {};
    } else {
      var n := |keys| - 1;
      assert keys == keys[..n] + [keys[n]];
      SetOfDistinct(members - {keys[n]}, keys[..n]);
    }
  }

  lemma ScriptsWithinCapacity(s: map<Key, Counters>, trace: Trace)
    requires SummaryScripts(s, trace)
    ensures forall k :: k in s <==> k in Retained(trace)
    ensures |s| == |Retained(trace)| <= MAX_PROFILED_SCRIPTS
  {
    RetainedKeys(trace);
    KeysCount(s, Retained(trace));
  }

  lemma LoadKnown(s: map<Key, Counters>, trace: Trace, e: Event)
    requires Length(trace) + 1 < U64_LIMIT && SummaryScripts(s, trace) && e.Load? && e.key in s
    ensures SummaryScripts(s[e.key := RecordLoad(s[e.key], e.offset)], After(trace, e))
  {
    hide CountersFor, Retained, RecordLoad;
    RetainedStep(trace, e);
    CountsWithinTrace(trace, e.key, 0);
    RecordLoadSummary(CountedOps(trace, e.key), Offsets(trace, e.key), e.offset);
  }

  lemma LoadNew(s: map<Key, Counters>, trace: Trace, e: Event)
    requires SummaryScripts(s, trace) && e.Load? && e.key !in s && |s| < MAX_PROFILED_SCRIPTS
    ensures SummaryScripts(s[e.key := NewCounters(e.offset)], After(trace, e))
  {
    hide CountersFor, Retained, NewCounters;
    RetainedStep(trace, e);
    RetainedKeys(trace);
    KeysCount(s, Retained(trace));
    NeverLoaded(trace, e.key);
    assert [] + [e.offset] == [e.offset];
    FirstLoad(e.offset);
  }

  lemma LoadSpilled(s: map<Key, Counters>, trace: Trace, e: Event)
    requires SummaryScripts(s, trace) && e.Load? && e.key !in s && MAX_PROFILED_SCRIPTS <= |s|
    ensures SummaryScripts(s, After(trace, e))
  {
    hide CountersFor, Retained;
    RetainedStep(trace, e);
    RetainedKeys(trace);
    KeysCount(s, Retained(trace));
  }

  lemma StepLoad(s: map<Key, Counters>, trace: Trace, e: Event)
    requires Length(trace) + 1 < U64_LIMIT && SummaryScripts(s, trace) && e.Load?
    ensures e.key in s ==> SummaryScripts(s[e.key := RecordLoad(s[e.key], e.offset)], After(trace, e))
    ensures e.key !in s && |s| < MAX_PROFILED_SCRIPTS ==> SummaryScripts(s[e.key := NewCounters(e.offset)], After(trace, e))
    ensures e.key !in s && MAX_PROFILED_SCRIPTS <= |s| ==> SummaryScripts(s, After(trace, e))
  {
    hide SummaryScripts, RecordLoad, NewCounters;
    if e.key in s {
      LoadKnown(s, trace, e);
    } else if |s| < MAX_PROFILED_SCRIPTS {
      LoadNew(s, trace, e);
    } else {
      LoadSpilled(s, trace, e);
    }
  }

  lemma NotSaturated(x: nat)
    ensures x + 1 < U64_LIMIT ==> SaturatingInc(x) == x + 1
  {
  }

  lemma CountInstruction(instructions: nat, offsets: seq<nat>)
    ensures CountersFor(instructions, offsets).instructions == instructions
    ensures CountersFor(instructions, offsets).(instructions := instructions + 1) == CountersFor(instructions + 1, offsets)
  {
  }

  lemma OpCounts(trace: Trace, e: Event, k: Key)
    requires e.Op?
    ensures Offsets(After(trace, e), k) == Offsets(trace, k)
    ensures k in LoadedKeys(trace) ==>
              CountedOps(After(trace, e), k) == CountedOps(trace, k) + if k == e.key then 1 else 0
  {
  }

  lemma OpKnown(s: map<Key, Counters>, trace: Trace, e: Event)
    requires Length(trace) + 1 < U64_LIMIT && SummaryScripts(s, trace) && e.Op? && e.key in s
    ensures SummaryScripts(s[e.key := s[e.key].(instructions := SaturatingInc(s[e.key].instructions))], After(trace, e))
  {
    hide Retained, CountersFor, SaturatingInc, CountedOps, Offsets, LoadedKeys;
    RetainedStep(trace, e);
    RetainedKeys(trace);
    CountsWithinTrace(trace, e.key, 0);
    NotSaturated(CountedOps(trace, e.key));
    CountInstruction(CountedOps(trace, e.key), Offsets(trace, e.key));
    forall k | k in s ensures Offsets(After(trace, e), k) == Offsets(trace, k)
                              && CountedOps(After(trace, e), k) == CountedOps(trace, k) + if k == e.key then 1 else 0
    {
      OpCounts(trace, e, k);
    }
  }

  lemma OpUnknown(s: map<Key, Counters>, trace: Trace, e: Event)
    requires SummaryScripts(s, trace) && e.Op? && e.key !in s
    ensures SummaryScripts(s, After(trace, e))
  {
    hide Retained, CountersFor;
    RetainedStep(trace, e);
  }

  lemma StepOp(s: map<Key, Counters>, trace: Trace, e: Event)
    requires Length(trace) + 1 < U64_LIMIT && SummaryScripts(s, trace) && e.Op?
    ensures e.key in s ==>
            SummaryScripts(s[e.key := s[e.key].(instructions := SaturatingInc(s[e.key].instructions))], After(trace, e))
    ensures e.key !in s ==> SummaryScripts(s, After(trace, e))
  {
    hide SummaryScripts;
    if e.key in s {
      OpKnown(s, trace, e);
    } else {
      OpUnknown(s, trace, e);
    }
  }

  lemma FirstLoad(o: nat)
    ensures CountersFor(0, [o]) == NewCounters(o)
  {
    assert Distinct([o]) == [o] by { DistinctAppend([], o); assert [] + [o] == [o]; }
    assert EntriesOf([o]) == [Entry(o, 1)];
    assert CountOutside([o], [o]) == 0 by { CountOutsideStep([], [o], o); assert [] + [o] == [o]; }
  }

  lemma StepOpcodeCounts(counts: seq<nat>, trace: Trace, e: Event)
    requires Length(trace) + 1 < U64_LIMIT && |counts| == OPCODE_COUNT
    requires forall b: Opcode :: counts[b] == OpcodeOccurrences(trace, b)
    ensures forall b: Opcode ::
              (if e.Op? then counts[e.opcode := WrappingInc(counts[e.opcode])] else counts)[b]
              == OpcodeOccurrences(After(trace, e), b)
  {
    if e.Op? {
      CountsWithinTrace(trace, e.key, e.opcode);
    }
  }

  ghost predicate IsSummary(s: State, trace: Trace) {
    && |s.opcodeCounts| == OPCODE_COUNT
    && (forall b: Opcode :: s.opcodeCounts[b] == OpcodeOccurrences(trace, b))
    && SummaryScripts(s.scripts, trace)
    && s.otherInstructions == OtherOps(trace)
    && s.otherContextLoads == OtherLoads(trace)
  }

  lemma StepSummary(s: State, trace: Trace, e: Event)
    requires Length(trace) + 1 < U64_LIMIT && IsSummary(s, trace)
    ensures IsSummary(Step(s, e), After(trace, e))
  {
    hide SummaryScripts, Retained, RecordLoad, NewCounters;
    RetainedStep(trace, e);
    ScriptsWithinCapacity(s.scripts, trace);
    CountsWithinTrace(trace, e.key, 0);
    StepOpcodeCounts(s.opcodeCounts, trace, e);
    if e.Load? {
      StepLoad(s.scripts, trace, e);
    } else {
      StepOp(s.scripts, trace, e);
    }
  }

  lemma {:induction false} RunSummary(trace: Trace)
    requires Length(trace) < U64_LIMIT
    ensures IsSummary(Run(trace), trace)
  {
    if trace.After? {
      RunSummary(trace.earlier);
      StepSummary(Run(trace.earlier), trace.earlier, trace.event);
    }
  }

  /** The collector's state after any trace shorter than 2^64 is the summary of the trace. */
  lemma RunIsSummary(trace: Trace)
    requires Length(trace) < U64_LIMIT
    ensures Run(trace) == Summary(trace)
  {
    hide Run, CountersFor, Retained, CountedOps, Offsets, OpcodeOccurrences;
    RunSummary(trace);
    assert Run(trace).opcodeCounts == Summary(trace).opcodeCounts;
    assert Run(trace).scripts == Summary(trace).scripts;
  }

  // ----- conservation over all scripts -----

  ghost function CountedIn(trace: Trace): Key -> nat {
    k => CountedOps(trace, k)
  }

  ghost function LoadsIn(trace: Trace): Key -> nat {
    k => |Offsets(trace, k)|
  }

  ghost predicate InstructionsConserve(trace: Trace) {
    Sum(CountedIn(trace), Retained(trace)) + OtherOps(trace) == Ops(trace)
  }

  lemma InstructionsStep(t: Trace, e: Event)
    requires InstructionsConserve(t)
    ensures InstructionsConserve(After(t, e))
  {
    hide Retained, Sum;
    var trace, kept := After(t, e), Retained(t);
    RetainedStep(t, e);
    RetainedKeys(t);
    if e.Op? && e.key in kept {
      var i :| 0 <= i < |kept| && kept[i] == e.key;
      SumChange(CountedIn(t), CountedIn(trace), kept, kept, i);
    } else if e.Load? && e.key !in kept && |kept| < MAX_PROFILED_SCRIPTS {
      NeverLoaded(t, e.key);
      SumChange(CountedIn(t), CountedIn(trace), kept, kept, |kept|);
      SumAppend(CountedIn(trace), kept, e.key);
    } else {
      SumChange(CountedIn(t), CountedIn(trace), kept, kept, |kept|);
    }
  }

  /** Every opcode is counted for a kept script or in the script overflow. */
  lemma {:induction false} InstructionsConserved(trace: Trace)
    ensures InstructionsConserve(trace)
  {
    if trace.After? {
      InstructionsConserved(trace.earlier);
      InstructionsStep(trace.earlier, trace.event);
    }
  }

  ghost predicate LoadsConserve(trace: Trace) {
    Sum(LoadsIn(trace), Retained(trace)) + OtherLoads(trace) == |LoadedKeys(trace)|
  }

  lemma LoadsStep(t: Trace, e: Event)
    requires LoadsConserve(t)
    ensures LoadsConserve(After(t, e))
  {
    hide Retained, Sum;
    var trace, kept := After(t, e), Retained(t);
    RetainedStep(t, e);
    RetainedKeys(t);
    if e.Load? && e.key in kept {
      var i :| 0 <= i < |kept| && kept[i] == e.key;
      SumChange(LoadsIn(t), LoadsIn(trace), kept, kept, i);
    } else if e.Load? && |kept| < MAX_PROFILED_SCRIPTS {
      NeverLoaded(t, e.key);
      SumChange(LoadsIn(t), LoadsIn(trace), kept, kept, |kept|);
      SumAppend(LoadsIn(trace), kept, e.key);
    } else {
      SumChange(LoadsIn(t), LoadsIn(trace), kept, kept, |kept|);
    }
  }

  /** Every context load is counted for a kept script or in the load overflow. */
  lemma {:induction false} LoadsConserved(trace: Trace)
    ensures LoadsConserve(trace)
  {
    if trace.After? {
      LoadsConserved(trace.earlier);
      LoadsStep(trace.earlier, trace.event);
    }
  }

  ghost function OpcodeCounts(trace: Trace): (counts: seq<nat>)
    ensures |counts| == OPCODE_COUNT && forall b: Opcode :: counts[b] == OpcodeOccurrences(trace, b)
  {
    seq(OPCODE_COUNT, b requires 0 <= b < OPCODE_COUNT => OpcodeOccurrences(trace, b))
  }

  function Same(x: nat): nat {
    x
  }

  /** The opcode counters add up to the number of dispatched instructions. */
  lemma {:induction false} OpcodeCountsConserved(trace: Trace)
    ensures Sum(Same, OpcodeCounts(trace)) == Ops(trace)
  {
    if trace.Start? {
      SumZero(Same, OpcodeCounts(trace));
    } else {
      var t, e := trace.earlier, trace.event;
      OpcodeCountsConserved(t);
      SumChange(Same, Same, OpcodeCounts(t), OpcodeCounts(trace), if e.Op? then e.opcode else OPCODE_COUNT);
    }
  }
}
