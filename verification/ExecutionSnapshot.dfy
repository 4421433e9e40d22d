/** Profile snapshots: sorted, unique, independent of hash-map order and of event order. */
module ExecutionSnapshot {
  import opened Sequences
  import opened ExecutionProfile
  import opened ExecutionSummary

  datatype ScriptProfile = ScriptProfile(key: Key, counters: Counters)

  datatype Profile = Profile(
    opcodeCounts: seq<nat>,
    scripts: seq<ScriptProfile>,
    otherInstructions: nat,
    otherContextLoads: nat)

  // ----- the two orders -----

  predicate LexBefore(a: seq<nat>, b: seq<nat>)
    requires |a| == |b|
  {
    a != [] && (a[0] < b[0] || (a[0] == b[0] && LexBefore(a[1..], b[1..])))
  }

  /** Most loads first, then lowest offset. */
  predicate EntryBefore(a: Entry, b: Entry) {
    a.loads > b.loads || (a.loads == b.loads && a.offset < b.offset)
  }

  /** Most instructions first, then script hash, then script length. */
  predicate ScriptBefore(a: ScriptProfile, b: ScriptProfile) {
    if a.counters.instructions != b.counters.instructions then a.counters.instructions > b.counters.instructions
    else if a.key.scriptHash != b.key.scriptHash then LexBefore(a.key.scriptHash, b.key.scriptHash)
    else a.key.scriptLen < b.key.scriptLen
  }

  lemma {:induction false} LexIrreflexive(a: seq<nat>)
    ensures !LexBefore(a, a)
  {
    if a != [] { LexIrreflexive(a[1..]); }
  }

  lemma {:induction false} LexTransitive(a: seq<nat>, b: seq<nat>, c: seq<nat>)
    requires |a| == |b| == |c| && LexBefore(a, b) && LexBefore(b, c)
    ensures LexBefore(a, c)
  {
    if a[0] == b[0] == c[0] { LexTransitive(a[1..], b[1..], c[1..]); }
  }

  lemma {:induction false} LexTotal(a: seq<nat>, b: seq<nat>)
    requires |a| == |b| && a != b
    ensures LexBefore(a, b) || LexBefore(b, a)
  {
    if a[0] == b[0] {
      assert a == [a[0]] + a[1..] && b == [b[0]] + b[1..];
      LexTotal(a[1..], b[1..]);
    }
  }

  lemma EntryOrder()
    ensures StrictOrder(EntryBefore)
  {
  }

  lemma ScriptOrder()
    ensures StrictOrder(ScriptBefore)
    ensures forall a: ScriptProfile, b: ScriptProfile :: a.key != b.key ==> ScriptBefore(a, b) || ScriptBefore(b, a)
  {
    forall a: ScriptProfile, b: ScriptProfile | a.key != b.key ensures ScriptBefore(a, b) || ScriptBefore(b, a) {
      if a.key.scriptHash != b.key.scriptHash {
        LexTotal(a.key.scriptHash, b.key.scriptHash);
      }
    }
    forall a: ScriptProfile, b: ScriptProfile, c: ScriptProfile | ScriptBefore(a, b) && ScriptBefore(b, c)
      ensures ScriptBefore(a, c)
    {
      var x, y, z := a.key.scriptHash, b.key.scriptHash, c.key.scriptHash;
      if LexBefore(x, y) && LexBefore(y, z) {
        LexTransitive(x, y, z);
        LexIrreflexive(x);
      }
      if LexBefore(x, y) && LexBefore(y, x) {
        LexTransitive(x, y, x);
        LexIrreflexive(x);
      }
    }
  }

  // ----- what a snapshot is -----

  /** `c` with its entries sorted. */
  ghost predicate SortedCounters(sorted: Counters, c: Counters) {
    && sorted == c.(entries := sorted.entries)
    && Sorted(EntryBefore, sorted.entries)
    && forall e :: e in sorted.entries <==> e in c.entries
  }

  ghost predicate IsSnapshot(s: State, p: Profile) {
    && p.opcodeCounts == s.opcodeCounts
    && p.otherInstructions == s.otherInstructions
    && p.otherContextLoads == s.otherContextLoads
    && Sorted(ScriptBefore, p.scripts)
    && (forall sp :: sp in p.scripts ==> sp.key in s.scripts && SortedCounters(sp.counters, s.scripts[sp.key]))
    && (forall k :: k in s.scripts ==> exists sp :: sp in p.scripts && sp.key == k)
  }

  /** The lexicographic order: the first difference decides. */
  lemma {:induction false} LexIff(a: seq<nat>, b: seq<nat>)
    requires |a| == |b|
    ensures LexBefore(a, b) <==> exists k :: 0 <= k < |a| && a[k] < b[k] && a[..k] == b[..k]
  {
    if a != [] {
      LexIff(a[1..], b[1..]);
      if LexBefore(a[1..], b[1..]) && a[0] == b[0] {
        var k :| 0 <= k < |a[1..]| && a[1..][k] < b[1..][k] && a[1..][..k] == b[1..][..k];
        assert a[..k + 1] == [a[0]] + a[1..][..k] && b[..k + 1] == [b[0]] + b[1..][..k];
      }
      forall k | 0 <= k < |a| && a[k] < b[k] && a[..k] == b[..k] ensures LexBefore(a, b) {
        if k != 0 {
          assert a[0] == a[..k][0] == b[..k][0] == b[0];
          assert a[1..][..k - 1] == a[..k][1..] && b[1..][..k - 1] == b[..k][1..];
          assert a[1..][k - 1] < b[1..][k - 1];
        }
      }
    }
  }

  /** Along a snapshot instructions never grow, and among equals the hashes never fall, nor the lengths among equal
      hashes; along the entries of a script loads never grow, and among equals the offsets rise. */
  lemma SnapshotDescends(s: State, p: Profile, i: nat, j: nat)
    requires IsSnapshot(s, p) && i < j < |p.scripts|
    ensures var a, b := p.scripts[i], p.scripts[j];
            && b.counters.instructions <= a.counters.instructions
            && (a.counters.instructions == b.counters.instructions && a.key.scriptHash != b.key.scriptHash ==>
                  exists k :: 0 <= k < 20 && a.key.scriptHash[k] < b.key.scriptHash[k]
                              && a.key.scriptHash[..k] == b.key.scriptHash[..k])
            && (a.counters.instructions == b.counters.instructions && a.key.scriptHash == b.key.scriptHash ==>
                  a.key.scriptLen < b.key.scriptLen)
    ensures forall sp, m, n :: sp in p.scripts && 0 <= m < n < |sp.counters.entries| ==>
              var x, y := sp.counters.entries[m], sp.counters.entries[n];
              y.loads <= x.loads && (x.loads == y.loads ==> x.offset < y.offset)
  {
    var a, b := p.scripts[i], p.scripts[j];
    assert ScriptBefore(a, b);
    LexIff(a.key.scriptHash, b.key.scriptHash);
  }

  /** The entries of a script differ in their offsets. */
  ghost predicate DistinctOffsets(entries: seq<Entry>) {
    forall i, j :: 0 <= i < j < |entries| ==> entries[i].offset != entries[j].offset
  }

  lemma SortedCountersUnique(a: Counters, b: Counters, c: Counters)
    requires SortedCounters(a, c) && SortedCounters(b, c)
    ensures a == b
  {
    EntryOrder();
    SortedUnique(EntryBefore, a.entries, b.entries);
  }

  /** A state has exactly one snapshot, whatever order its hash map is walked in. */
  lemma SnapshotUnique(s: State, p: Profile, q: Profile)
    requires IsSnapshot(s, p) && IsSnapshot(s, q)
    ensures p == q
  {
    forall sp ensures sp in p.scripts <==> sp in q.scripts {
      if sp in p.scripts { SameScript(s, p, q, sp); }
      if sp in q.scripts { SameScript(s, q, p, sp); }
    }
    ScriptOrder();
    SortedUnique(ScriptBefore, p.scripts, q.scripts);
  }

  lemma SameScript(s: State, p: Profile, q: Profile, sp: ScriptProfile)
    requires IsSnapshot(s, p) && IsSnapshot(s, q) && sp in p.scripts
    ensures sp in q.scripts
  {
    var sq :| sq in q.scripts && sq.key == sp.key;
    SortedCountersUnique(sp.counters, sq.counters, s.scripts[sp.key]);
  }

  method SortEntries(entries: seq<Entry>) returns (r: seq<Entry>)
    requires DistinctOffsets(entries)
    ensures Sorted(EntryBefore, r) && forall e :: e in r <==> e in entries
  {
    EntryOrder();
    r := [];
    for i := 0 to |entries|
      invariant Sorted(EntryBefore, r)
      invariant forall e :: e in r <==> e in entries[..i]
    {
      InsertKeepsSorted(EntryBefore, r, entries[i]);
      r := InsertSorted(EntryBefore, r, entries[i]);
      assert entries[..i + 1] == entries[..i] + [entries[i]];
    }
  }

  /** The collector's snapshot; the keys are taken in an arbitrary order. */
  method Snapshot(s: State) returns (p: Profile)
    requires forall k :: k in s.scripts ==> DistinctOffsets(s.scripts[k].entries)
    ensures IsSnapshot(s, p)
  {
    var scripts: seq<ScriptProfile> := [];
    var left := s.scripts.Keys;
    while left != {}
      invariant left <= s.scripts.Keys
      invariant Sorted(ScriptBefore, scripts)
      invariant forall sp :: sp in scripts ==>
                  sp.key in s.scripts && sp.key !in left && SortedCounters(sp.counters, s.scripts[sp.key])
      invariant forall k :: k in s.scripts && k !in left ==> exists sp :: sp in scripts && sp.key == k
      decreases left
    {
      var key :| key in left;
      var entries := SortEntries(s.scripts[key].entries);
      var sp := ScriptProfile(key, s.scripts[key].(entries := entries));
      InsertScript(scripts, sp);
      ghost var before := scripts;
      scripts := InsertSorted(ScriptBefore, scripts, sp);
      left := left - {key};
      assert sp in scripts && forall x :: x in before ==> x in scripts;
    }
    p := Profile(s.opcodeCounts, scripts, s.otherInstructions, s.otherContextLoads);
  }

  lemma InsertScript(scripts: seq<ScriptProfile>, sp: ScriptProfile)
    requires Sorted(ScriptBefore, scripts) && forall x :: x in scripts ==> x.key != sp.key
    ensures Sorted(ScriptBefore, InsertSorted(ScriptBefore, scripts, sp))
  {
    ScriptOrder();
    InsertKeepsSorted(ScriptBefore, scripts, sp);
  }

  /** The states that traces lead to can always be snapshot. */
  lemma ReachableEntriesDistinct(trace: Trace, k: Key)
    requires Length(trace) < U64_LIMIT && k in Run(trace).scripts
    ensures DistinctOffsets(Run(trace).scripts[k].entries)
  {
    RunSummary(trace);
    KeptStep(Offsets(trace, k), 0);
  }

  // ----- conservation, on the snapshot -----

  function KeyOf(sp: ScriptProfile): Key { sp.key }
  function InstructionsOf(sp: ScriptProfile): nat { sp.counters.instructions }
  function ContextLoadsOf(sp: ScriptProfile): nat { sp.counters.contextLoads }

  ghost function KeysOf(scripts: seq<ScriptProfile>): (keys: seq<Key>)
    ensures |keys| == |scripts| && forall i :: 0 <= i < |keys| ==> keys[i] == scripts[i].key
  {
    seq(|scripts|, i requires 0 <= i < |scripts| => scripts[i].key)
  }

  lemma SnapshotKeys(trace: Trace, p: Profile)
    requires Length(trace) < U64_LIMIT && IsSnapshot(Run(trace), p)
    ensures multiset(KeysOf(p.scripts)) == multiset(Retained(trace))
  {
    hide Retained, Run;
    var keys := KeysOf(p.scripts);
    RunSummary(trace);
    RetainedKeys(trace);
    forall k ensures k in keys <==> k in Retained(trace) {
      if k in Retained(trace) {
        var sp :| sp in p.scripts && sp.key == k;
        var i :| 0 <= i < |p.scripts| && p.scripts[i] == sp;
        assert keys[i] == k;
      }
    }
    forall i, j | 0 <= i < j < |keys| ensures keys[i] != keys[j] {
      var a, b := p.scripts[i], p.scripts[j];
      assert a in p.scripts && b in p.scripts && ScriptBefore(a, b);
      if a.key == b.key {
        SortedCountersUnique(a.counters, b.counters, Run(trace).scripts[a.key]);
      }
    }
    SameMembersPermute(keys, Retained(trace));
  }

  /** The capacity bounds and conservation laws of every snapshot of every trace. */
  lemma SnapshotConserves(trace: Trace, p: Profile)
    requires Length(trace) < U64_LIMIT && IsSnapshot(Run(trace), p)
    ensures |p.scripts| <= MAX_PROFILED_SCRIPTS
    ensures Sum(InstructionsOf, p.scripts) + p.otherInstructions == Sum(Same, p.opcodeCounts) == Ops(trace)
    ensures Sum(ContextLoadsOf, p.scripts) + p.otherContextLoads == |LoadedKeys(trace)|
    ensures forall sp :: sp in p.scripts ==>
              && |sp.counters.entries| <= MAX_PROFILED_ENTRY_POINTS
              && Sum(LoadsOf, sp.counters.entries) + sp.counters.otherEntryLoads == sp.counters.contextLoads
  {
    hide Retained, Run, Sum;
    var keys := KeysOf(p.scripts);
    RunSummary(trace);
    RetainedKeys(trace);
    SnapshotKeys(trace, p);
    assert |keys| == |multiset(keys)| == |Retained(trace)|;
    forall i | 0 <= i < |p.scripts|
      ensures InstructionsOf(p.scripts[i]) == CountedIn(trace)(keys[i])
      ensures ContextLoadsOf(p.scripts[i]) == LoadsIn(trace)(keys[i])
    {
      assert p.scripts[i] in p.scripts;
    }
    SumChange(InstructionsOf, CountedIn(trace), p.scripts, keys, |keys|);
    SumPermutation(CountedIn(trace), keys, Retained(trace));
    InstructionsConserved(trace);
    SumChange(ContextLoadsOf, LoadsIn(trace), p.scripts, keys, |keys|);
    SumPermutation(LoadsIn(trace), keys, Retained(trace));
    LoadsConserved(trace);
    assert p.opcodeCounts == OpcodeCounts(trace);
    OpcodeCountsConserved(trace);
    forall sp | sp in p.scripts
      ensures |sp.counters.entries| <= MAX_PROFILED_ENTRY_POINTS
      ensures Sum(LoadsOf, sp.counters.entries) + sp.counters.otherEntryLoads == sp.counters.contextLoads
    {
      SnapshotEntries(Offsets(trace, sp.key), CountedOps(trace, sp.key), sp.counters);
    }
  }

  lemma SnapshotEntries(offsets: seq<nat>, instructions: nat, c: Counters)
    requires SortedCounters(c, CountersFor(instructions, offsets))
    ensures |c.entries| <= MAX_PROFILED_ENTRY_POINTS
    ensures Sum(LoadsOf, c.entries) + c.otherEntryLoads == c.contextLoads
  {
    var entries := EntriesOf(offsets);
    KeptStep(offsets, 0);
    EntryOrder();
    SameMembersPermute(c.entries, entries);
    assert |c.entries| == |multiset(c.entries)| == |entries|;
    SumPermutation(LoadsOf, c.entries, entries);
    EntryLoadsConserved(offsets);
  }
}
