/** What an aggregated replay profile holds after any sequence of transactions. */
module SyncProfileLaws {
  import opened Sequences
  import opened BoundedTables
  import opened SyncProfile
  import opened Wrappers

  /** All reported scripts and logical contexts, in the order in which they are entered. */
  ghost function AllEvents(records: seq<Record>): seq<Event> {
    if records == [] then [] else AllEvents(records[..|records| - 1]) + Events(records[|records| - 1])
  }

  function EventInstructions(e: Event): nat { if e.Reported? then e.report.instructions else 0 }

  function EventContexts(e: Event): nat { if e.Reported? then e.report.contexts else 0 }

  function EventLogical(e: Event): nat { if e.Entered? then e.context.load.count else 0 }

  function EventRecords(e: Event): nat { if e.Reported? then 1 else 0 }

  /** The table and the overflow counters after `events`. */
  ghost predicate Accounted(a: Aggregate, events: seq<Event>) {
    var dropped := Dropped(ScriptPolicy(), events);
    && a.scripts == Table(ScriptPolicy(), events)
    && a.overflowInstructions == Sum(EventInstructions, dropped)
    && a.overflowLoads == Sum(EventContexts, dropped)
    && a.logicalOverflow == Sum(EventLogical, dropped)
    && a.overflowRecords == Sum(EventRecords, dropped)
  }

  lemma EnterOne(a: Aggregate, events: seq<Event>, e: Event)
    requires Accounted(a, events)
    ensures Accounted(Enter(a, e), events + [e])
  {
    hide Put, Admits, Table, Dropped, Sum;
    var dropped := Dropped(ScriptPolicy(), events);
    TableAppend(ScriptPolicy(), events, e);
    SumAppend(EventInstructions, dropped, e);
    SumAppend(EventContexts, dropped, e);
    SumAppend(EventLogical, dropped, e);
    SumAppend(EventRecords, dropped, e);
  }

  lemma {:induction false} EnterMany(a: Aggregate, before: seq<Event>, events: seq<Event>)
    requires Accounted(a, before)
    ensures Accounted(EnterAll(a, events), before + events)
  {
    hide Accounted, Enter;
    if events == [] {
      assert before + events == before;
    } else {
      var n := |events| - 1;
      EnterMany(a, before, events[..n]);
      EnterOne(EnterAll(a, events[..n]), before + events[..n], events[n]);
      assert before + events[..n] + [events[n]] == before + events;
    }
  }

  lemma {:induction false} ReplayEnters(records: seq<Record>)
    ensures Accounted(Replay(records), AllEvents(records))
  {
    if records != [] {
      var n := |records| - 1;
      ReplayEnters(records[..n]);
      var a, r := Replay(records[..n]), records[n];
      assert Accounted(Opened(a, r), AllEvents(records[..n]));
      EnterMany(Opened(a, r), AllEvents(records[..n]), Events(r));
    }
  }

  /** The retained scripts are the first 16384 distinct ones; each holds what was reported for it alone. */
  lemma ScriptsAreExact(records: seq<Record>)
    ensures Holds(ScriptPolicy(), AllEvents(records), Replay(records).scripts)
    ensures |Replay(records).scripts| <= VM_SCRIPT_CAPACITY
  {
    ReplayEnters(records);
    TableHolds(ScriptPolicy(), AllEvents(records));
  }

  // ----- conservation -----

  function ScriptInstructions(s: Script): nat { s.instructions }

  function ScriptContexts(s: Script): nat { s.contexts }

  ghost function ScriptLogical(s: Script): nat { Total(s.logical) }

  lemma ScriptsAreAdditive()
    ensures Additive(ScriptPolicy(), ScriptInstructions, EventInstructions)
    ensures Additive(ScriptPolicy(), ScriptContexts, EventContexts)
    ensures Additive(ScriptPolicy(), ScriptLogical, EventLogical)
  {
    forall s: Script, e: Event ensures ScriptLogical(Apply(s, e)) == ScriptLogical(s) + EventLogical(e) {
      if e.Entered? {
        CountConserves(VM_LOGICAL_CONTEXT_CAPACITY, s.logical, e.context.load);
      }
    }
  }

  ghost function ReportedInstructions(records: seq<Record>): nat {
    Sum(EventInstructions, AllEvents(records))
  }

  lemma EventsCarryReports(r: Record)
    ensures Sum(EventInstructions, Events(r)) == ReportedBy(r)
  {
    var n := |r.scripts|;
    var reported, entered := Events(r)[..n], Events(r)[n..];
    assert Events(r) == reported + entered;
    SumConcat(EventInstructions, reported, entered);
    SumChange(InstructionsOf, EventInstructions, r.scripts, reported, n);
    SumZero(EventInstructions, entered);
  }

  lemma {:induction false} EnteringKeepsCounts(a: Aggregate, events: seq<Event>)
    ensures var b := EnterAll(a, events);
            && b.profiled == a.profiled && b.unreported == a.unreported
            && b.collectorOverflowInstructions == a.collectorOverflowInstructions
            && b.collectorOverflowLoads == a.collectorOverflowLoads
            && b.transactions == a.transactions && b.executeUs == a.executeUs
            && b.otherContextLoads == a.otherContextLoads && b.labels == a.labels
            && b.malformedScripts == a.malformedScripts && b.malformedContexts == a.malformedContexts
  {
    if events != [] {
      EnteringKeepsCounts(a, events[..|events| - 1]);
    }
  }

  ghost function TotalExcess(records: seq<Record>): nat {
    Sum(Excess, records)
  }

  lemma {:induction false} ProfiledIsAccounted(records: seq<Record>)
    ensures var a := Replay(records);
            a.profiled + TotalExcess(records) ==
              ReportedInstructions(records) + a.collectorOverflowInstructions + a.unreported
  {
    if records != [] {
      var n := |records| - 1;
      var a, r := Replay(records[..n]), records[n];
      ProfiledIsAccounted(records[..n]);
      EnteringKeepsCounts(Opened(a, r), Events(r));
      SumConcat(EventInstructions, AllEvents(records[..n]), Events(r));
      EventsCarryReports(r);
    }
  }

  /** Instructions are conserved up to what the records themselves report in excess of their totals. */
  lemma InstructionsConserved(records: seq<Record>)
    ensures var a := Replay(records);
            var accounted := Sum(OfValue(ScriptInstructions), a.scripts) + a.overflowInstructions
                             + a.collectorOverflowInstructions + a.unreported;
            && accounted == a.profiled + TotalExcess(records)
            && a.profiled <= accounted
            && (a.profiled == accounted <==> forall r :: r in records ==> r.overflowInstructions + ReportedBy(r) <= r.profiled)
  {
    ProfiledIsAccounted(records);
    ReplayEnters(records);
    ScriptsAreAdditive();
    TableConserves(ScriptPolicy(), ScriptInstructions, EventInstructions, AllEvents(records));
    NoExcess(records);
  }

  lemma {:induction false} NoExcess(records: seq<Record>)
    ensures TotalExcess(records) == 0 <==> forall r :: r in records ==> r.overflowInstructions + ReportedBy(r) <= r.profiled
  {
    if records != [] {
      var n := |records| - 1;
      NoExcess(records[..n]);
      assert records == records[..n] + [records[n]];
    }
  }

  /** Context loads and logical-context loads are conserved across the scripts and the overflow counters. */
  lemma LoadsConserved(records: seq<Record>)
    ensures var a, events := Replay(records), AllEvents(records);
            && Sum(OfValue(ScriptContexts), a.scripts) + a.overflowLoads == Sum(EventContexts, events)
            && Sum(OfValue(ScriptLogical), a.scripts) + a.logicalOverflow == Sum(EventLogical, events)
  {
    ReplayEnters(records);
    ScriptsAreAdditive();
    TableConserves(ScriptPolicy(), ScriptContexts, EventContexts, AllEvents(records));
    TableConserves(ScriptPolicy(), ScriptLogical, EventLogical, AllEvents(records));
  }

  // ----- capacities inside a script -----

  ghost predicate Bounded(s: Script) {
    |s.entries.slots| <= VM_ENTRY_CAPACITY && |s.logical.slots| <= VM_LOGICAL_CONTEXT_CAPACITY
  }

  ghost function EntryLoads(e: Event): nat {
    if e.Reported? then Sum(CountOf, e.report.entries) else 0
  }

  function EventUs(e: Event): nat { if e.Reported? then e.us else 0 }

  function EventOtherEntries(e: Event): nat { if e.Reported? then e.report.otherEntryLoads else 0 }

  /** The sum of `weight` over the events of one script. */
  ghost function KeySum(weight: Event -> nat, events: seq<Event>, key: Key): nat {
    if events == [] then 0
    else
      var n := |events| - 1;
      KeySum(weight, events[..n], key) + if KeyOf(events[n]) == key then weight(events[n]) else 0
  }

  /** Every number of a script is the sum over the events of that script alone. */
  ghost predicate Totals(s: Script, events: seq<Event>, key: Key) {
    && s.instructions == KeySum(EventInstructions, events, key)
    && s.contexts == KeySum(EventContexts, events, key)
    && s.appearances == KeySum(EventRecords, events, key)
    && s.inclusiveUs == KeySum(EventUs, events, key)
    && s.otherEntryLoads == KeySum(EventOtherEntries, events, key)
    && Total(s.entries) == KeySum(EntryLoads, events, key)
    && Total(s.logical) == KeySum(EventLogical, events, key)
  }

  /** All entry loads reported for one script, in order. */
  ghost function EntriesFor(events: seq<Event>, key: Key): seq<Load<nat>> {
    if events == [] then []
    else
      var n := |events| - 1;
      var e := events[n];
      EntriesFor(events[..n], key) + if KeyOf(e) == key && e.Reported? then e.report.entries else []
  }

  /** All logical contexts entered for one script, in order. */
  ghost function ContextsFor(events: seq<Event>, key: Key): seq<Load<Identity>> {
    if events == [] then []
    else
      var n := |events| - 1;
      var e := events[n];
      ContextsFor(events[..n], key) + if KeyOf(e) == key && e.Entered? then [e.context.load] else []
  }

  /** The counts held are those of the loads, and the overflow is what was turned away. */
  ghost predicate Tallies<K(!new)>(t: Tally<K>, capacity: nat, loads: seq<Load<K>>) {
    && t.slots == Table(LoadPolicy(capacity), loads)
    && t.overflow == Sum(CountOf, Dropped(LoadPolicy(capacity), loads))
  }

  lemma TallyOne<K(!new)>(t: Tally<K>, capacity: nat, loads: seq<Load<K>>, l: Load<K>)
    requires Tallies(t, capacity, loads)
    ensures Tallies(Count(capacity, t, l), capacity, loads + [l])
  {
    hide Put, Admits, Table, Dropped, Sum;
    TableAppend(LoadPolicy(capacity), loads, l);
    SumAppend(CountOf, Dropped(LoadPolicy(capacity), loads), l);
  }

  lemma {:induction false} TallyMany<K(!new)>(t: Tally<K>, capacity: nat, loads: seq<Load<K>>, more: seq<Load<K>>)
    requires Tallies(t, capacity, loads)
    ensures Tallies(CountAll(capacity, t, more), capacity, loads + more)
  {
    hide Tallies, Count;
    if more == [] {
      assert loads + more == loads;
    } else {
      var n := |more| - 1;
      TallyMany(t, capacity, loads, more[..n]);
      TallyOne(CountAll(capacity, t, more[..n]), capacity, loads + more[..n], more[n]);
      assert loads + more[..n] + [more[n]] == loads + more;
    }
  }

  lemma {:induction false} ScriptValue(events: seq<Event>, key: Key)
    ensures var s := ValueOf(ScriptPolicy(), events, key);
            Bounded(s) && Totals(s, events, key)
  {
    if events != [] {
      var n := |events| - 1;
      ScriptValue(events[..n], key);
      var s := ValueOf(ScriptPolicy(), events[..n], key);
      match events[n]
      case Reported(_, r) => CountAllConserves(VM_ENTRY_CAPACITY, s.entries, r.entries);
      case Entered(c) => CountConserves(VM_LOGICAL_CONTEXT_CAPACITY, s.logical, c.load);
    }
  }

  lemma {:induction false} ScriptTallies(events: seq<Event>, key: Key)
    ensures var s := ValueOf(ScriptPolicy(), events, key);
            && Tallies(s.entries, VM_ENTRY_CAPACITY, EntriesFor(events, key))
            && Tallies(s.logical, VM_LOGICAL_CONTEXT_CAPACITY, ContextsFor(events, key))
  {
    hide Count, CountAll;
    if events != [] {
      var n := |events| - 1;
      var e := events[n];
      ScriptTallies(events[..n], key);
      var s := ValueOf(ScriptPolicy(), events[..n], key);
      if KeyOf(e) == key && e.Reported? {
        TallyMany(s.entries, VM_ENTRY_CAPACITY, EntriesFor(events[..n], key), e.report.entries);
        assert ContextsFor(events, key) == ContextsFor(events[..n], key);
      } else if KeyOf(e) == key {
        TallyOne(s.logical, VM_LOGICAL_CONTEXT_CAPACITY, ContextsFor(events[..n], key), e.context.load);
        assert EntriesFor(events, key) == EntriesFor(events[..n], key);
      } else {
        assert EntriesFor(events, key) == EntriesFor(events[..n], key);
        assert ContextsFor(events, key) == ContextsFor(events[..n], key);
      }
    }
  }

  /** Every retained script keeps within its capacities, and each of its numbers is the sum of what was
      reported for it over all records. */
  lemma ScriptTotals(records: seq<Record>, i: nat)
    requires i < |Replay(records).scripts|
    ensures var slot := Replay(records).scripts[i];
            Bounded(slot.value) && Totals(slot.value, AllEvents(records), slot.key)
  {
    ScriptsAreExact(records);
    ScriptValue(AllEvents(records), Replay(records).scripts[i].key);
  }

  /** The entries of a retained script are its first 128 distinct offsets, each with the sum of its own loads,
      and likewise for its first 256 distinct logical contexts. */
  lemma EntriesAreExact(records: seq<Record>, i: nat)
    requires i < |Replay(records).scripts|
    ensures var slot, events := Replay(records).scripts[i], AllEvents(records);
            && Holds(LoadPolicy(VM_ENTRY_CAPACITY), EntriesFor(events, slot.key), slot.value.entries.slots)
            && Holds(LoadPolicy(VM_LOGICAL_CONTEXT_CAPACITY), ContextsFor(events, slot.key), slot.value.logical.slots)
  {
    var slot, events := Replay(records).scripts[i], AllEvents(records);
    ScriptsAreExact(records);
    ScriptTallies(events, slot.key);
    TableHolds(LoadPolicy<nat>(VM_ENTRY_CAPACITY), EntriesFor(events, slot.key));
    TableHolds(LoadPolicy<Identity>(VM_LOGICAL_CONTEXT_CAPACITY), ContextsFor(events, slot.key));
  }

  /** What a load policy builds up for one key is the sum of its loads. */
  lemma {:induction false} LoadsOfKey<K(!new)>(capacity: nat, loads: seq<Load<K>>, k: K)
    ensures ValueOf(LoadPolicy(capacity), loads, k) == Sum(OnlyOf(k), loads)
  {
    if loads != [] {
      LoadsOfKey(capacity, loads[..|loads| - 1], k);
    }
  }

  ghost function OnlyOf<K(!new)>(k: K): Load<K> -> nat {
    (l: Load<K>) => if l.what == k then l.count else 0
  }

  // ----- plain totals -----

  function UsOf(r: Record): nat { r.executeUs }

  function ProfiledOf(r: Record): nat { r.profiled }

  function OverflowOf(r: Record): nat { r.overflowInstructions }

  function OverflowLoadsOf(r: Record): nat { r.overflowContextLoads }

  function OtherLoadsOf(r: Record): nat { r.otherContextLoads }

  function MalformedScriptsOf(r: Record): nat { r.malformedScripts }

  function MalformedContextsOf(r: Record): nat { r.malformedContexts }

  /** The numbers that every record simply adds to. */
  lemma {:induction false} PlainTotals(records: seq<Record>)
    ensures var a := Replay(records);
            && a.transactions == |records|
            && a.executeUs == Sum(UsOf, records)
            && a.profiled == Sum(ProfiledOf, records)
            && a.collectorOverflowInstructions == Sum(OverflowOf, records)
            && a.collectorOverflowLoads == Sum(OverflowLoadsOf, records)
            && a.otherContextLoads == Sum(OtherLoadsOf, records)
            && a.malformedScripts == Sum(MalformedScriptsOf, records)
            && a.malformedContexts == Sum(MalformedContextsOf, records)
  {
    if records != [] {
      var n := |records| - 1;
      PlainTotals(records[..n]);
      EnteringKeepsCounts(Opened(Replay(records[..n]), records[n]), Events(records[n]));
    }
  }

  // ----- labels -----

  function ProtocolOf(r: Record): Option<string> { r.labels.protocol }

  function MagicOf(r: Record): Option<string> { r.labels.networkMagic }

  function HardforkOf(r: Record): Option<string> { r.labels.hardfork }

  ghost function Names(of: Record -> Option<string>, records: seq<Record>): seq<Load<string>> {
    if records == [] then []
    else
      var n := |records| - 1;
      Names(of, records[..n]) + if of(records[n]).Some? then [Load(of(records[n]).value, 1)] else []
  }

  lemma CountLabelHolds(counts: seq<Slot<string, nat>>, names: seq<Load<string>>, name: Option<string>)
    requires Holds(LoadPolicy(LABEL_CAPACITY), names, counts)
    ensures Holds(LoadPolicy(LABEL_CAPACITY), names + if name.Some? then [Load(name.value, 1)] else [],
                  CountLabel(counts, name))
  {
    hide Holds, Put;
    if name.Some? {
      PutHolds(LoadPolicy(LABEL_CAPACITY), names, Load(name.value, 1), counts);
    } else {
      assert names + [] == names;
    }
  }

  /** The labels counted are the first 64 distinct ones, each with the number of records that carry it. */
  lemma {:induction false} LabelsAreExact(records: seq<Record>)
    ensures var labels, p := Replay(records).labels, LoadPolicy<string>(LABEL_CAPACITY);
            && Holds(p, Names(ProtocolOf, records), labels.protocol)
            && Holds(p, Names(MagicOf, records), labels.networkMagic)
            && Holds(p, Names(HardforkOf, records), labels.hardfork)
  {
    if records == [] {
      TableHolds(LoadPolicy<string>(LABEL_CAPACITY), []);
    } else {
      hide Holds;
      var n := |records| - 1;
      var a, r := Replay(records[..n]), records[n];
      LabelsAreExact(records[..n]);
      EnteringKeepsCounts(Opened(a, r), Events(r));
      CountLabelHolds(a.labels.protocol, Names(ProtocolOf, records[..n]), r.labels.protocol);
      CountLabelHolds(a.labels.networkMagic, Names(MagicOf, records[..n]), r.labels.networkMagic);
      CountLabelHolds(a.labels.hardfork, Names(HardforkOf, records[..n]), r.labels.hardfork);
    }
  }
}
