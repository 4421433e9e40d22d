/** The bounded VM execution profiler.

    The collector keeps at most 64 scripts and at most 32 entry offsets for each;
    what does not fit goes to overflow counters. `Run` is the collector's state after
    a trace of events, `Summary` says the same without replaying the trace, and the
    snapshot of a state does not depend on hash-map or event order.
 */
module ExecutionProfile {
  import opened Sequences

  const MAX_PROFILED_SCRIPTS: nat := 64
  const MAX_PROFILED_ENTRY_POINTS: nat := 32
  const OPCODE_COUNT: nat := 256
  const U64_LIMIT: nat := 0x1_0000_0000_0000_0000

  type Hash = h: seq<nat> | |h| == 20 witness seq(20, _ => 0)
  type Opcode = b: int | 0 <= b < OPCODE_COUNT

  datatype Key = Key(scriptHash: Hash, scriptLen: nat)
  datatype Entry = Entry(offset: nat, loads: nat)
  datatype Counters = Counters(instructions: nat, contextLoads: nat, entries: seq<Entry>, otherEntryLoads: nat)

  /** What a profiled engine reports. */
  datatype Event =
    | Load(key: Key, offset: nat)
    | Op(key: Key, opcode: Opcode)

  /** The events of one execution, the latest outermost. */
  datatype Trace = Start | After(earlier: Trace, event: Event)

  ghost function Length(trace: Trace): nat {
    match trace
    case Start => 0
    case After(earlier, _) => Length(earlier) + 1
  }

  datatype State = State(
    opcodeCounts: seq<nat>,
    scripts: map<Key, Counters>,
    otherInstructions: nat,
    otherContextLoads: nat)

  function SaturatingInc(x: nat): nat {
    if x + 1 < U64_LIMIT then x + 1 else x
  }

  function WrappingInc(x: nat): nat {
    if x + 1 < U64_LIMIT then x + 1 else 0
  }

  // ----- one step -----

  function NewCounters(offset: nat): Counters {
    Counters(0, 1, [Entry(offset, 1)], 0)
  }

  /** The position of `offset` among the entries, or their number if it is not there. */
  function FindEntry(entries: seq<Entry>, offset: nat): (i: nat)
    ensures i <= |entries|
    ensures i < |entries| ==> entries[i].offset == offset
    ensures forall k :: 0 <= k < i ==> entries[k].offset != offset
  {
    if entries == [] || entries[0].offset == offset then 0
    else
      var i := FindEntry(entries[1..], offset);
      assert forall k :: 0 < k < i + 1 ==> entries[k] == entries[1..][k - 1];
      i + 1
  }

  function RecordLoad(c: Counters, offset: nat): Counters {
    var i := FindEntry(c.entries, offset);
    var counted := c.(contextLoads := SaturatingInc(c.contextLoads));
    if i < |c.entries| then
      counted.(entries := c.entries[i := Entry(offset, SaturatingInc(c.entries[i].loads))])
    else if |c.entries| < MAX_PROFILED_ENTRY_POINTS then
      counted.(entries := c.entries + [Entry(offset, 1)])
    else
      counted.(otherEntryLoads := SaturatingInc(c.otherEntryLoads))
  }

  function Initial(): State {
    State(seq(OPCODE_COUNT, _ => 0), map[], 0, 0)
  }

  function Step(s: State, e: Event): State
    requires |s.opcodeCounts| == OPCODE_COUNT
  {
    match e
    case Op(key, opcode) =>
      var t := s.(opcodeCounts := s.opcodeCounts[opcode := WrappingInc(s.opcodeCounts[opcode])]);
      if key in s.scripts then
        var c := s.scripts[key];
        t.(scripts := s.scripts[key := c.(instructions := SaturatingInc(c.instructions))])
      else
        t.(otherInstructions := SaturatingInc(s.otherInstructions))
    case Load(key, offset) =>
      if key in s.scripts then
        s.(scripts := s.scripts[key := RecordLoad(s.scripts[key], offset)])
      else if |s.scripts| < MAX_PROFILED_SCRIPTS then
        s.(scripts := s.scripts[key := NewCounters(offset)])
      else
        s.(otherContextLoads := SaturatingInc(s.otherContextLoads))
  }

  function Run(trace: Trace): (s: State)
    ensures |s.opcodeCounts| == OPCODE_COUNT
  {
    match trace
    case Start => Initial()
    case After(earlier, e) => Step(Run(earlier), e)
  }

  /** The collector itself: each recording is one step of the specification. */
  class Collector {
    var opcodeCounts: array<nat>
    var scripts: map<Key, Counters>
    var otherInstructions: nat
    var otherContextLoads: nat

    ghost predicate Valid()
      reads this, opcodeCounts
    {
      opcodeCounts.Length == OPCODE_COUNT
    }

    ghost function View(): State
      reads this, opcodeCounts
    {
      State(opcodeCounts[..], scripts, otherInstructions, otherContextLoads)
    }

    constructor ()
      ensures Valid() && fresh(opcodeCounts)
      ensures View() == Initial()
    {
      opcodeCounts := new nat[OPCODE_COUNT](_ => 0);
      scripts := map[];
      otherInstructions, otherContextLoads := 0, 0;
      new;
      assert opcodeCounts[..] == seq(OPCODE_COUNT, _ => 0);
    }

    method RecordOpcode(key: Key, opcode: Opcode)
      requires Valid()
      modifies this, opcodeCounts
      ensures Valid() && opcodeCounts == old(opcodeCounts)
      ensures View() == Step(old(View()), Op(key, opcode))
    {
      opcodeCounts[opcode] := WrappingInc(opcodeCounts[opcode]);
      if key in scripts {
        var script := scripts[key];
        scripts := scripts[key := script.(instructions := SaturatingInc(script.instructions))];
      } else {
        otherInstructions := SaturatingInc(otherInstructions);
      }
    }

    method RecordContextLoad(key: Key, offset: nat)
      requires Valid()
      modifies this
      ensures Valid() && opcodeCounts == old(opcodeCounts)
      ensures View() == Step(old(View()), Load(key, offset))
    {
      if key in scripts {
        scripts := scripts[key := RecordLoad(scripts[key], offset)];
      } else if |scripts| < MAX_PROFILED_SCRIPTS {
        scripts := scripts[key := NewCounters(offset)];
      } else {
        otherContextLoads := SaturatingInc(otherContextLoads);
      }
    }
  }

  // ----- what a trace holds -----

  ghost function LoadedKeys(trace: Trace): seq<Key> {
    match trace
    case Start => []
    case After(earlier, Load(key, _)) => LoadedKeys(earlier) + [key]
    case After(earlier, Op(_, _)) => LoadedKeys(earlier)
  }

  ghost function Offsets(trace: Trace, key: Key): seq<nat> {
    match trace
    case Start => []
    case After(earlier, e) =>
      if e.Load? && e.key == key then Offsets(earlier, key) + [e.offset] else Offsets(earlier, key)
  }

  /** The opcodes of `key` that come after its first context load. */
  ghost function CountedOps(trace: Trace, key: Key): nat {
    match trace
    case Start => 0
    case After(earlier, e) =>
      CountedOps(earlier, key) + if e.Op? && e.key == key && key in LoadedKeys(earlier) then 1 else 0
  }

  ghost function OpcodeOccurrences(trace: Trace, b: Opcode): nat {
    match trace
    case Start => 0
    case After(earlier, e) => OpcodeOccurrences(earlier, b) + if e.Op? && e.opcode == b then 1 else 0
  }

  ghost function Ops(trace: Trace): nat {
    match trace
    case Start => 0
    case After(earlier, e) => Ops(earlier) + if e.Op? then 1 else 0
  }

  /** The scripts that are kept: the first 64 distinct ones that were loaded. */
  ghost function Retained(trace: Trace): seq<Key> {
    Take(Distinct(LoadedKeys(trace)), MAX_PROFILED_SCRIPTS)
  }

  /** The entry offsets that are kept, with their loads: the first 32 distinct ones. */
  ghost function EntriesOf(offsets: seq<nat>): (entries: seq<Entry>)
    ensures |entries| == |KeptOffsets(offsets)|
    ensures forall i :: 0 <= i < |entries| ==>
              entries[i] == Entry(KeptOffsets(offsets)[i], multiset(offsets)[KeptOffsets(offsets)[i]])
  {
    var kept := KeptOffsets(offsets);
    seq(|kept|, i requires 0 <= i < |kept| => Entry(kept[i], multiset(offsets)[kept[i]]))
  }

  ghost function KeptOffsets(offsets: seq<nat>): seq<nat> {
    Take(Distinct(offsets), MAX_PROFILED_ENTRY_POINTS)
  }

  function LoadsOf(e: Entry): nat {
    e.loads
  }
}
