/** Aggregation of per-transaction VM profiles into one bounded replay profile. */
module SyncProfile {
  import opened Sequences
  import opened BoundedTables
  import opened Wrappers

  const VM_SCRIPT_CAPACITY: nat := 16384
  const VM_ENTRY_CAPACITY: nat := 128
  const VM_LOGICAL_CONTEXT_CAPACITY: nat := 256
  const LABEL_CAPACITY: nat := 64

  datatype Key = Key(scriptHash: string, scriptBytes: nat)

  /** The attributes that tell logical contexts of one script apart. */
  type Identity = seq<string>

  datatype Load<K> = Load(what: K, count: nat)

  /** One script of a transaction's profile, as parsed. */
  datatype Report = Report(key: Key, instructions: nat, contexts: nat, otherEntryLoads: nat, entries: seq<Load<nat>>)

  datatype Context = Context(key: Key, load: Load<Identity>)

  /** The profile of one transaction, as parsed. */
  datatype Record = Record(
    executeUs: nat,
    profiled: nat,
    overflowInstructions: nat,
    overflowContextLoads: nat,
    scripts: seq<Report>,
    malformedScripts: nat,
    contexts: seq<Context>,
    malformedContexts: nat,
    otherContextLoads: nat,
    labels: Labels<Option<string>>)

  datatype Labels<T> = Labels(protocol: T, networkMagic: T, hardfork: T)

  // ----- bounded load counts -----

  datatype Tally<K> = Tally(slots: seq<Slot<K, nat>>, overflow: nat)

  function WhatOf<K>(l: Load<K>): K { l.what }

  function CountOf<K>(l: Load<K>): nat { l.count }

  function AddCount<K>(n: nat, l: Load<K>): nat { n + l.count }

  function Identical(n: nat): nat { n }

  function LoadPolicy<K>(capacity: nat): Policy<K, nat, Load<K>> {
    Policy(capacity, WhatOf, 0, AddCount)
  }

  function Count<K(==)>(capacity: nat, t: Tally<K>, l: Load<K>): Tally<K> {
    var p := LoadPolicy(capacity);
    if Admits(p, t.slots, l) then t.(slots := Put(p, t.slots, l)) else t.(overflow := t.overflow + l.count)
  }

  function CountAll<K(==)>(capacity: nat, t: Tally<K>, loads: seq<Load<K>>): Tally<K> {
    if loads == [] then t
    else Count(capacity, CountAll(capacity, t, loads[..|loads| - 1]), loads[|loads| - 1])
  }

  ghost function Total<K>(t: Tally<K>): nat {
    Sum(OfValue(Identical), t.slots) + t.overflow
  }

  lemma CountConserves<K(!new)>(capacity: nat, t: Tally<K>, l: Load<K>)
    ensures Total(Count(capacity, t, l)) == Total(t) + l.count
    ensures |t.slots| <= capacity ==> |Count(capacity, t, l).slots| <= capacity
  {
    assert Additive(LoadPolicy<K>(capacity), Identical, CountOf);
    PutConserves(LoadPolicy(capacity), Identical, CountOf, t.slots, l);
  }

  lemma {:induction false} CountAllConserves<K(!new)>(capacity: nat, t: Tally<K>, loads: seq<Load<K>>)
    ensures Total(CountAll(capacity, t, loads)) == Total(t) + Sum(CountOf, loads)
    ensures |t.slots| <= capacity ==> |CountAll(capacity, t, loads).slots| <= capacity
  {
    if loads != [] {
      var n := |loads| - 1;
      CountAllConserves(capacity, t, loads[..n]);
      CountConserves(capacity, CountAll(capacity, t, loads[..n]), loads[n]);
    }
  }

  method CountLoads<K(==)>(capacity: nat, t: Tally<K>, loads: seq<Load<K>>) returns (r: Tally<K>)
    ensures r == CountAll(capacity, t, loads)
  {
    r := t;
    for i := 0 to |loads|
      invariant r == CountAll(capacity, t, loads[..i])
    {
      var l, at := loads[i], Find(r.slots, loads[i].what);
      assert loads[..i + 1][..i] == loads[..i];
      if at < |r.slots| {
        r := r.(slots := r.slots[at := Slot(l.what, r.slots[at].value + l.count)]);
      } else if |r.slots| < capacity {
        r := r.(slots := r.slots + [Slot(l.what, l.count)]);
      } else {
        r := r.(overflow := r.overflow + l.count);
      }
    }
    assert loads[..|loads|] == loads;
  }

  /** Labels beyond the first 64 are not counted at all. */
  function CountLabel(counts: seq<Slot<string, nat>>, name: Option<string>): seq<Slot<string, nat>> {
    if name.None? then counts else Put(LoadPolicy(LABEL_CAPACITY), counts, Load(name.value, 1))
  }

  // ----- scripts -----

  datatype Script = Script(
    instructions: nat,
    contexts: nat,
    appearances: nat,
    inclusiveUs: nat,
    otherEntryLoads: nat,
    entries: Tally<nat>,
    logical: Tally<Identity>)

  const NEW_SCRIPT := Script(0, 0, 0, 0, 0, Tally([], 0), Tally([], 0))

  /** What happens to the table of scripts, one reported script or logical context at a time. */
  datatype Event = Reported(us: nat, report: Report) | Entered(context: Context)

  function KeyOf(e: Event): Key {
    if e.Reported? then e.report.key else e.context.key
  }

  function Apply(s: Script, e: Event): Script {
    match e
    case Reported(us, r) =>
      Script(s.instructions + r.instructions, s.contexts + r.contexts, s.appearances + 1, s.inclusiveUs + us,
             s.otherEntryLoads + r.otherEntryLoads, CountAll(VM_ENTRY_CAPACITY, s.entries, r.entries), s.logical)
    case Entered(c) =>
      s.(logical := Count(VM_LOGICAL_CONTEXT_CAPACITY, s.logical, c.load))
  }

  function ScriptPolicy(): Policy<Key, Script, Event> {
    Policy(VM_SCRIPT_CAPACITY, KeyOf, NEW_SCRIPT, Apply)
  }

  datatype Aggregate = Aggregate(
    transactions: nat,
    executeUs: nat,
    profiled: nat,
    collectorOverflowInstructions: nat,
    collectorOverflowLoads: nat,
    unreported: nat,
    malformedScripts: nat,
    malformedContexts: nat,
    labels: Labels<seq<Slot<string, nat>>>,
    otherContextLoads: nat,
    logicalOverflow: nat,
    overflowRecords: nat,
    overflowInstructions: nat,
    overflowLoads: nat,
    scripts: seq<Slot<Key, Script>>)

  const EMPTY := Aggregate(0, 0, 0, 0, 0, 0, 0, 0, Labels([], [], []), 0, 0, 0, 0, 0, [])

  function Enter(a: Aggregate, e: Event): Aggregate {
    if Admits(ScriptPolicy(), a.scripts, e) then a.(scripts := Put(ScriptPolicy(), a.scripts, e))
    else
      match e
      case Reported(_, r) =>
        a.(overflowRecords := a.overflowRecords + 1,
           overflowInstructions := a.overflowInstructions + r.instructions,
           overflowLoads := a.overflowLoads + r.contexts)
      case Entered(c) => a.(logicalOverflow := a.logicalOverflow + c.load.count)
  }

  function EnterAll(a: Aggregate, events: seq<Event>): Aggregate {
    if events == [] then a else Enter(EnterAll(a, events[..|events| - 1]), events[|events| - 1])
  }

  lemma EnterAllStep(a: Aggregate, events: seq<Event>, i: nat)
    requires i < |events|
    ensures EnterAll(a, events[..i + 1]) == Enter(EnterAll(a, events[..i]), events[i])
  {
    hide Enter;
    assert events[..i + 1][..i] == events[..i];
  }

  function Events(r: Record): (events: seq<Event>)
    ensures |events| == |r.scripts| + |r.contexts|
    ensures forall i :: 0 <= i < |r.scripts| ==> events[i] == Reported(r.executeUs, r.scripts[i])
    ensures forall i :: 0 <= i < |r.contexts| ==> events[|r.scripts| + i] == Entered(r.contexts[i])
  {
    seq(|r.scripts|, i requires 0 <= i < |r.scripts| => Reported(r.executeUs, r.scripts[i]))
    + seq(|r.contexts|, i requires 0 <= i < |r.contexts| => Entered(r.contexts[i]))
  }

  function InstructionsOf(r: Report): nat { r.instructions }

  ghost function ReportedBy(r: Record): nat {
    Sum(InstructionsOf, r.scripts)
  }

  ghost function Excess(r: Record): nat {
    if r.profiled < r.overflowInstructions + ReportedBy(r) then r.overflowInstructions + ReportedBy(r) - r.profiled else 0
  }

  ghost function Unreported(r: Record): nat {
    if r.overflowInstructions + ReportedBy(r) < r.profiled then r.profiled - r.overflowInstructions - ReportedBy(r) else 0
  }

  function Opened(a: Aggregate, r: Record): Aggregate {
    a.(transactions := a.transactions + 1,
       executeUs := a.executeUs + r.executeUs,
       profiled := a.profiled + r.profiled,
       collectorOverflowInstructions := a.collectorOverflowInstructions + r.overflowInstructions,
       collectorOverflowLoads := a.collectorOverflowLoads + r.overflowContextLoads,
       malformedScripts := a.malformedScripts + r.malformedScripts,
       malformedContexts := a.malformedContexts + r.malformedContexts,
       labels := Labels(CountLabel(a.labels.protocol, r.labels.protocol),
                        CountLabel(a.labels.networkMagic, r.labels.networkMagic),
                        CountLabel(a.labels.hardfork, r.labels.hardfork)),
       otherContextLoads := a.otherContextLoads + r.otherContextLoads)
  }

  /** One more transaction. */
  ghost function Merged(a: Aggregate, r: Record): Aggregate {
    var b := EnterAll(Opened(a, r), Events(r));
    b.(unreported := b.unreported + Unreported(r))
  }

  ghost function Replay(records: seq<Record>): Aggregate {
    if records == [] then EMPTY else Merged(Replay(records[..|records| - 1]), records[|records| - 1])
  }

  /** The aggregate in place. */
  class Aggregator {
    var counts: Aggregate
    var scripts: seq<Slot<Key, Script>>

    ghost function View(): Aggregate
      reads this
    {
      counts.(scripts := scripts)
    }

    constructor ()
      ensures View() == EMPTY
    {
      counts, scripts := EMPTY, [];
    }

    method MergeReport(us: nat, report: Report)
      modifies this
      ensures View() == Enter(old(View()), Reported(us, report))
    {
      var i := Find(scripts, report.key);
      if i == |scripts| && VM_SCRIPT_CAPACITY <= |scripts| {
        counts := counts.(overflowRecords := counts.overflowRecords + 1,
                          overflowInstructions := counts.overflowInstructions + report.instructions,
                          overflowLoads := counts.overflowLoads + report.contexts);
        return;
      }
      if i == |scripts| {
        scripts := scripts + [Slot(report.key, NEW_SCRIPT)];
      }
      var current := scripts[i].value;
      current := current.(instructions := current.instructions + report.instructions,
                          contexts := current.contexts + report.contexts,
                          appearances := current.appearances + 1,
                          inclusiveUs := current.inclusiveUs + us,
                          otherEntryLoads := current.otherEntryLoads + report.otherEntryLoads);
      var entries := CountLoads(VM_ENTRY_CAPACITY, current.entries, report.entries);
      scripts := scripts[i := Slot(report.key, current.(entries := entries))];
    }

    method MergeContext(context: Context)
      modifies this
      ensures View() == Enter(old(View()), Entered(context))
    {
      var i := Find(scripts, context.key);
      if i == |scripts| && VM_SCRIPT_CAPACITY <= |scripts| {
        counts := counts.(logicalOverflow := counts.logicalOverflow + context.load.count);
        return;
      }
      if i == |scripts| {
        scripts := scripts + [Slot(context.key, NEW_SCRIPT)];
      }
      var current := scripts[i].value;
      scripts := scripts[i := Slot(context.key,
                                   current.(logical := Count(VM_LOGICAL_CONTEXT_CAPACITY, current.logical, context.load)))];
    }

    method Open(r: Record)
      modifies this
      ensures View() == Opened(old(View()), r)
    {
      counts := Opened(counts, r);
    }

    method MergeReports(r: Record) returns (reported: nat)
      modifies this
      ensures View() == EnterAll(old(View()), Events(r)[..|r.scripts|])
      ensures reported == ReportedBy(r)
    {
      hide Enter, Events;
      ghost var start, events := View(), Events(r);
      reported := 0;
      for i := 0 to |r.scripts|
        invariant View() == EnterAll(start, events[..i])
        invariant reported == Sum(InstructionsOf, r.scripts[..i])
      {
        reported := reported + r.scripts[i].instructions;
        MergeReport(r.executeUs, r.scripts[i]);
        EnterAllStep(start, events, i);
        assert r.scripts[..i + 1] == r.scripts[..i] + [r.scripts[i]];
        SumAppend(InstructionsOf, r.scripts[..i], r.scripts[i]);
      }
      assert r.scripts[..|r.scripts|] == r.scripts;
    }

    method MergeContexts(r: Record, ghost start: Aggregate)
      requires View() == EnterAll(start, Events(r)[..|r.scripts|])
      modifies this
      ensures View() == EnterAll(start, Events(r))
    {
      hide Enter, Events;
      ghost var n, events := |r.scripts|, Events(r);
      for i := 0 to |r.contexts|
        invariant View() == EnterAll(start, events[..n + i])
      {
        MergeContext(r.contexts[i]);
        EnterAllStep(start, events, n + i);
      }
      assert events[..|events|] == events;
    }

    method Merge(r: Record)
      modifies this
      ensures View() == Merged(old(View()), r)
    {
      hide EnterAll, Opened, Events, ReportedBy;
      Open(r);
      ghost var start := View();
      var reported := MergeReports(r);
      MergeContexts(r, start);
      if r.overflowInstructions + reported < r.profiled {
        counts := counts.(unreported := counts.unreported + (r.profiled - r.overflowInstructions - reported));
      }
    }
  }
}
