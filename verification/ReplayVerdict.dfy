/** The verdict of a bounded replay: three stages that may change the status of its report. */
module ReplayVerdict {
  import opened Wrappers

  datatype Status =
    | TargetReached
    | MetricsUnavailable
    | TooSlow
    | WorkUnproven
    | TooFast
    | Timeout
    | ProcessExited
    | RepairableFailure
    | FastSyncReportMissing
    | FastSyncReportInvalid
    | HeightMismatch
    | ReferenceMismatch
    | Unlisted(name: string)

  /** A report field that may be absent or not convertible. */
  datatype Field<T> = Absent | Bad | Value(value: T)

  datatype Source = FastSync | ImportChain | Elsewhere

  /** What an import log or a fast-sync report says about the import. */
  datatype Import = Import(
    transactionBlocks: Field<int>,
    transactionRate: Field<real>,
    averageRate: Field<real>,
    finalHeight: Field<int>,
    imported: Field<int>,
    meetsFloor: bool)

  datatype Sidecar = Missing | Invalid | Present(contents: Option<Import>)

  /** What stays fixed while a report goes through the stages. */
  datatype Request = Request(
    source: Source,
    target: Field<int>,
    floor: Field<real>,
    ceiling: Field<real>,
    firstHeight: Field<int>)

  // ----- speed -----

  /** Lowers the status when a measured rate lies outside the configured band. */
  function ApplySpeed(q: Request, st: Status, measured: Option<real>): Status {
    if measured.None? then st
    else
      var slow := q.floor.Value? && measured.value < q.floor.value;
      var fast := q.ceiling.Value? && q.ceiling.value < measured.value;
      var checked := if slow && (st.TargetReached? || st.TooSlow? || st.WorkUnproven?) then TooSlow else st;
      if fast && checked.TargetReached? then TooFast else checked
  }

  /** The transaction-bearing rate if there is one, else the average rate. */
  function Measurement(i: Import): Option<real> {
    if i.transactionBlocks.Value? && 0 < i.transactionBlocks.value && i.transactionRate.Value?
    then Some(i.transactionRate.value)
    else if i.averageRate.Value? then Some(i.averageRate.value)
    else None
  }

  /** Transaction work, a final height at the target and a rate at the floor. */
  predicate Proves(q: Request, i: Import, finalHeight: Option<int>) {
    && i.transactionBlocks.Value? && 0 < i.transactionBlocks.value
    && !i.transactionRate.Bad?
    && q.target.Value? && finalHeight.Some? && q.target.value <= finalHeight.value
    && (match q.floor
        case Absent => true
        case Bad => false
        case Value(floor) => floor <= if i.transactionRate.Value? then i.transactionRate.value else 0.0)
  }

  predicate FastSyncProves(q: Request, i: Import) {
    i.meetsFloor && Proves(q, i, if i.finalHeight.Value? then Some(i.finalHeight.value) else None)
  }

  /** An import that omits its final height proves it by the first sampled height and the imported count. */
  predicate ChainAccProves(q: Request, i: Import) {
    Proves(q, i,
           match i.finalHeight
           case Value(h) => Some(h)
           case Bad => None
           case Absent =>
             if i.imported.Value? && q.firstHeight.Value? then Some(q.firstHeight.value + i.imported.value) else None)
  }

  function RecoverFastSync(q: Request, st: Status, i: Option<Import>): Status {
    if q.source != FastSync || i.None? || !(st.TooSlow? || st.WorkUnproven?) then st
    else if FastSyncProves(q, i.value) then TargetReached
    else ApplySpeed(q, st, Measurement(i.value))
  }

  // ----- the stages -----

  function AfterFastSync(q: Request, st: Status, sidecar: Sidecar): Status {
    if q.source != FastSync then st
    else
      match sidecar
      case Missing => if st.TargetReached? then FastSyncReportMissing else st
      case Invalid => if st.TargetReached? then FastSyncReportInvalid else st
      case Present(i) =>
        RecoverFastSync(q, if i.Some? then ApplySpeed(q, st, Measurement(i.value)) else st, i)
  }

  function AfterChainAcc(q: Request, st: Status, i: Option<Import>): Status {
    if q.source != ImportChain || i.None? || !(st.MetricsUnavailable? || st.TooSlow? || st.WorkUnproven?) then st
    else if ChainAccProves(q, i.value) then TargetReached
    else ApplySpeed(q, st, Measurement(i.value))
  }

  type Root = string

  /** What the probes of the database found, and the answers of the references by URL. */
  datatype Probe = Probe(
    db: bool,
    chainHeight: Option<int>,
    stateHeight: Option<int>,
    localRoot: Option<Root>,
    answer: string -> Option<Root>)

  datatype Checks = Checks(requireHeight: bool, requireReference: bool, references: seq<string>)

  const DEFAULT_REFERENCES: seq<string> :=
    ["http://seed1.neo.org:10332", "http://seed2.neo.org:10332", "http://seed3.neo.org:10332",
     "http://seed4.neo.org:10332", "http://seed5.neo.org:10332"]

  function EffectiveReferences(c: Checks): seq<string> {
    if c.requireReference && c.references == [] then DEFAULT_REFERENCES else c.references
  }

  datatype Comparison = Comparison(matchesLocal: bool, successful: nat, sampled: nat)

  /** Asks every reference once and compares the answers with the local root. */
  method FetchReferences(urls: seq<string>, p: Probe) returns (r: Comparison)
    ensures r.sampled == |urls| && r.successful <= |urls|
    ensures r.successful == |urls| <==> forall u :: u in urls ==> p.answer(u).Some?
    ensures r.matchesLocal <==> AllAgree(urls, p)
  {
    var roots: seq<Root> := [];
    var sampled := 0;
    for i := 0 to |urls|
      invariant sampled == i && |roots| <= i
      invariant |roots| == i <==> forall u :: u in urls[..i] ==> p.answer(u).Some?
      invariant forall root :: root in roots <==> exists u :: u in urls[..i] && p.answer(u) == Some(root)
    {
      assert urls[..i + 1] == urls[..i] + [urls[i]];
      if p.answer(urls[i]).Some? {
        roots := roots + [p.answer(urls[i]).value];
      }
      sampled := sampled + 1;
    }
    assert urls[..|urls|] == urls;
    var all := urls != [] && |roots| == |urls|;
    var matches := p.localRoot.Some? && p.localRoot.value != "" && all
                   && forall root :: root in roots ==> root == p.localRoot.value;
    r := Comparison(matches, |roots|, sampled);
    if matches {
      forall u | u in urls ensures p.answer(u) == p.localRoot {
        assert p.answer(u).value in roots;
      }
    }
  }

  ghost predicate AllAgree(urls: seq<string>, p: Probe) {
    urls != [] && p.localRoot.Some? && p.localRoot.value != "" && forall u :: u in urls ==> p.answer(u) == p.localRoot
  }

  ghost predicate HeightsMatch(p: Probe) {
    p.db && p.chainHeight.Some? && p.chainHeight == p.stateHeight
  }

  ghost predicate ReferencesMatch(c: Checks, p: Probe) {
    p.db && p.stateHeight.Some? && AllAgree(EffectiveReferences(c), p)
  }

  ghost function AfterPostProbe(q: Request, st: Status, i: Option<Import>, c: Checks, p: Probe): Status {
    if !p.db && c.references == [] && !c.requireReference then st
    else
      var recovered := RecoverFastSync(q, st, i);
      if !recovered.TargetReached? then recovered
      else if c.requireHeight && !HeightsMatch(p) then HeightMismatch
      else if c.requireReference && !ReferencesMatch(c, p) then ReferenceMismatch
      else TargetReached
  }

  /** The three stages in order; only fast-sync reads the sidecar, only chain import reads the log. */
  ghost function Verdict(q: Request, st: Status, sidecar: Sidecar, log: Option<Import>, c: Checks, p: Probe): Status {
    AfterPostProbe(q, AfterChainAcc(q, AfterFastSync(q, st, sidecar), log), SidecarImport(q, sidecar), c, p)
  }

  function SidecarImport(q: Request, sidecar: Sidecar): Option<Import> {
    if q.source == FastSync && sidecar.Present? then sidecar.contents else None
  }

  /** The report, changed in place by the stages. */
  class ReplayReport {
    const request: Request
    var status: Status
    var fastSync: Option<Import>

    constructor (q: Request, st: Status)
      ensures request == q && status == st && fastSync == None
    {
      request, status, fastSync := q, st, None;
    }

    method ApplyMeasurement(measured: Option<real>)
      modifies this`status
      ensures status == ApplySpeed(request, old(status), measured)
    {
      if measured.None? {
        return;
      }
      if request.floor.Value? && measured.value < request.floor.value
         && (status.TargetReached? || status.TooSlow? || status.WorkUnproven?) {
        status := TooSlow;
      }
      if request.ceiling.Value? && request.ceiling.value < measured.value && status.TargetReached? {
        status := TooFast;
      }
    }

    method Recover()
      modifies this`status
      ensures status == RecoverFastSync(request, old(status), fastSync)
    {
      if request.source != FastSync || fastSync.None? || !(status.TooSlow? || status.WorkUnproven?) {
        return;
      }
      ApplyMeasurement(Measurement(fastSync.value));
      if FastSyncProves(request, fastSync.value) {
        status := TargetReached;
      }
    }

    method AttachFastSync(sidecar: Sidecar)
      requires fastSync.None?
      modifies this
      ensures status == AfterFastSync(request, old(status), sidecar)
      ensures fastSync == SidecarImport(request, sidecar)
    {
      if request.source != FastSync {
        return;
      }
      match sidecar
      case Missing =>
        if status.TargetReached? {
          status := FastSyncReportMissing;
        }
      case Invalid =>
        if status.TargetReached? {
          status := FastSyncReportInvalid;
        }
      case Present(i) =>
        fastSync := i;
        if i.Some? {
          ApplyMeasurement(Measurement(i.value));
        }
        Recover();
    }

    method AttachChainAcc(log: Option<Import>)
      modifies this`status
      ensures status == AfterChainAcc(request, old(status), log)
    {
      if request.source != ImportChain || log.None? {
        return;
      }
      if status.MetricsUnavailable? || status.TooSlow? || status.WorkUnproven? {
        ApplyMeasurement(Measurement(log.value));
        if ChainAccProves(request, log.value) {
          status := TargetReached;
        }
      }
    }

    method AttachPostProbe(c: Checks, p: Probe)
      modifies this`status
      ensures status == AfterPostProbe(request, old(status), fastSync, c, p)
    {
      if !p.db && c.references == [] && !c.requireReference {
        return;
      }
      var urls := EffectiveReferences(c);
      var matches, strong := p.db && p.chainHeight.Some? && p.chainHeight == p.stateHeight, false;
      if urls != [] && p.db && p.stateHeight.Some? {
        var r := FetchReferences(urls, p);
        strong := r.matchesLocal && |urls| <= r.successful && |urls| <= r.sampled;
      }
      Recover();
      if c.requireHeight && status.TargetReached? && !matches {
        status := HeightMismatch;
      }
      if c.requireReference && status.TargetReached? && !strong {
        status := ReferenceMismatch;
      }
    }

    method Judge(sidecar: Sidecar, log: Option<Import>, c: Checks, p: Probe)
      requires fastSync.None?
      modifies this
      ensures status == Verdict(request, old(status), sidecar, log, c, p)
    {
      AttachFastSync(sidecar);
      AttachChainAcc(log);
      AttachPostProbe(c, p);
    }
  }

  // ----- what a verdict means -----

  /** Hard failures stay what they are. */
  lemma HardFailuresStay(q: Request, st: Status, sidecar: Sidecar, log: Option<Import>, c: Checks, p: Probe)
    requires st.Timeout? || st.ProcessExited? || st.RepairableFailure? || st.TooFast?
    ensures Verdict(q, st, sidecar, log, c, p) == st
  {
  }

  /** Blocks with transactions were imported, and their rate, if one is given, can be read. */
  ghost predicate ShowsWork(i: Import) {
    (exists n :: i.transactionBlocks == Value(n) && 1 <= n) && (i.transactionRate == Absent || i.transactionRate.Value?)
  }

  /** The import ended at height `h`: it says so, or a chain import that does not say so imported its blocks on
      top of the first height seen. */
  ghost predicate EndsAt(q: Request, i: Import, h: int) {
    || i.finalHeight == Value(h)
    || (q.source == ImportChain && i.finalHeight == Absent
        && exists n :: i.imported == Value(n) && q.firstHeight == Value(h - n))
  }

  ghost predicate ReachesTarget(q: Request, i: Import) {
    exists h :: EndsAt(q, i, h) && q.target.Value? && q.target.value <= h
  }

  /** A floor that is given is a number, and the rate, zero if none is given, is not below it. */
  ghost predicate MeetsFloor(q: Request, i: Import) {
    q.floor == Absent
    || exists floor :: q.floor == Value(floor)
                       && ((exists rate :: i.transactionRate == Value(rate) && floor <= rate)
                           || (i.transactionRate == Absent && floor <= 0.0))
  }

  /** The import for which a report may be upgraded: that of the sidecar or that of the log. */
  ghost predicate Proven(q: Request, sidecar: Sidecar, log: Option<Import>) {
    || (q.source == FastSync && sidecar.Present? && sidecar.contents.Some?
        && sidecar.contents.value.meetsFloor && Shows(q, sidecar.contents.value))
    || (q.source == ImportChain && log.Some? && Shows(q, log.value))
  }

  ghost predicate Shows(q: Request, i: Import) {
    ShowsWork(i) && ReachesTarget(q, i) && MeetsFloor(q, i)
  }

  /** `Shows` says what the two import proofs decide. */
  lemma ShowsIff(q: Request, i: Import)
    ensures q.source == FastSync ==> (FastSyncProves(q, i) <==> i.meetsFloor && Shows(q, i))
    ensures q.source == ImportChain ==> (ChainAccProves(q, i) <==> Shows(q, i))
  {
    var h := if i.finalHeight.Value? then i.finalHeight.value
             else if i.imported.Value? && q.firstHeight.Value? then q.firstHeight.value + i.imported.value else 0;
    assert i.finalHeight.Value? ==> EndsAt(q, i, h);
    assert q.source == ImportChain && i.finalHeight == Absent && i.imported.Value? && q.firstHeight.Value? ==> EndsAt(q, i, h);
  }

  predicate Tentative(q: Request, st: Status) {
    st.TooSlow? || st.WorkUnproven? || (q.source == ImportChain && st.MetricsUnavailable?)
  }

  /** The final checks that are in force pass. */
  ghost predicate ChecksPass(c: Checks, p: Probe) {
    (c.requireHeight && (p.db || c.references != [] || c.requireReference) ==> HeightsMatch(p))
    && (c.requireReference ==> ReferencesMatch(c, p))
  }

  /** A report that did not reach its target is upgraded exactly if its status is tentative, an import
      proves transaction work, target height and floor, and the required checks pass. */
  lemma UpgradedIff(q: Request, st: Status, sidecar: Sidecar, log: Option<Import>, c: Checks, p: Probe)
    requires !st.TargetReached?
    ensures Verdict(q, st, sidecar, log, c, p) == TargetReached
       <==> Tentative(q, st) && Proven(q, sidecar, log) && ChecksPass(c, p)
  {
    hide FastSyncProves, ChainAccProves, Shows, Measurement;
    if sidecar.Present? && sidecar.contents.Some? {
      ShowsIff(q, sidecar.contents.value);
    }
    if log.Some? {
      ShowsIff(q, log.value);
    }
  }

  /** A report that did reach its target keeps that verdict exactly if the sidecar exists and shows an
      acceptable speed where fast-sync demands one, and the required checks pass. */
  lemma KeptIff(q: Request, sidecar: Sidecar, log: Option<Import>, c: Checks, p: Probe)
    ensures Verdict(q, TargetReached, sidecar, log, c, p) == TargetReached
       <==> (q.source == FastSync ==> sidecar.Present? && SpeedAccepted(q, sidecar.contents)) && ChecksPass(c, p)
  {
    hide FastSyncProves, ChainAccProves, Measurement, Measures, Shows, InBand, BelowFloor;
    if q.source == FastSync && sidecar.Present? && sidecar.contents.Some? {
      AcceptedIff(q, sidecar.contents.value);
    }
  }

  /** The rate by which an import is judged: that of its transaction blocks if it has any, else the average. */
  ghost predicate Measures(i: Import, rate: real) {
    if (exists n :: i.transactionBlocks == Value(n) && 1 <= n) && i.transactionRate.Value?
    then i.transactionRate == Value(rate)
    else i.averageRate == Value(rate)
  }

  ghost predicate InBand(q: Request, rate: real) {
    && (forall floor :: q.floor == Value(floor) ==> floor <= rate)
    && (forall ceiling :: q.ceiling == Value(ceiling) ==> rate <= ceiling)
  }

  ghost predicate BelowFloor(q: Request, rate: real) {
    exists floor :: q.floor == Value(floor) && rate < floor
  }

  /** A rate that is measured lies within the band, or is below the floor of an import that proves itself. */
  ghost predicate SpeedAccepted(q: Request, i: Option<Import>) {
    i.Some? ==> forall rate :: Measures(i.value, rate) ==>
      InBand(q, rate) || (BelowFloor(q, rate) && i.value.meetsFloor && Shows(q, i.value))
  }

  lemma MeasuresIff(i: Import, rate: real)
    ensures Measures(i, rate) <==> Measurement(i) == Some(rate)
  {
  }

  lemma AcceptedIff(q: Request, i: Import)
    requires q.source == FastSync
    ensures var st := ApplySpeed(q, TargetReached, Measurement(i));
            SpeedAccepted(q, Some(i)) <==> st == TargetReached || (st == TooSlow && FastSyncProves(q, i))
  {
    hide Measures, Measurement, Shows, FastSyncProves;
    ShowsIff(q, i);
    forall rate ensures Measures(i, rate) <==> Measurement(i) == Some(rate) {
      MeasuresIff(i, rate);
    }
    if Measurement(i).Some? {
      var rate := Measurement(i).value;
      assert Measures(i, rate);
      assert ApplySpeed(q, TargetReached, Some(rate)) == TargetReached <==> InBand(q, rate);
      assert ApplySpeed(q, TargetReached, Some(rate)) == TooSlow <==> BelowFloor(q, rate);
    }
  }

  /** With a positive floor, an accepted speed is a measured rate within the band. */
  lemma AcceptedSpeedIsInBand(q: Request, i: Import, rate: real)
    requires q.floor.Value? && 0.0 < q.floor.value && Measures(i, rate)
    ensures SpeedAccepted(q, Some(i)) <==> InBand(q, rate)
  {
  }

  /** The import that is looked at: that of the sidecar or that of the log. */
  ghost function Judged(q: Request, sidecar: Sidecar, log: Option<Import>): Option<Import> {
    if q.source == FastSync && sidecar.Present? then sidecar.contents
    else if q.source == ImportChain then log
    else None
  }

  ghost predicate TooSlowFor(q: Request, i: Option<Import>) {
    i.Some? && exists rate :: Measures(i.value, rate) && BelowFloor(q, rate)
  }

  ghost predicate TooFastFor(q: Request, i: Option<Import>) {
    i.Some? && exists rate :: Measures(i.value, rate) && !BelowFloor(q, rate) && !InBand(q, rate)
  }

  lemma SpeedIs(q: Request, st: Status, i: Import)
    ensures ApplySpeed(q, st, Measurement(i))
         == if TooSlowFor(q, Some(i)) && (st.TargetReached? || st.TooSlow? || st.WorkUnproven?) then TooSlow
            else if TooFastFor(q, Some(i)) && st.TargetReached? then TooFast
            else st
  {
    hide Measures, Measurement;
    forall rate ensures Measures(i, rate) <==> Measurement(i) == Some(rate) {
      MeasuresIff(i, rate);
    }
    if Measurement(i).Some? {
      var rate := Measurement(i).value;
      assert Measures(i, rate);
      assert BelowFloor(q, rate) ==> TooSlowFor(q, Some(i));
      assert !BelowFloor(q, rate) && !InBand(q, rate) ==> TooFastFor(q, Some(i));
    }
  }

  /** A report that is not upgraded keeps its status, except that unproven work becomes too slow if its import is. */
  lemma NotUpgradedIs(q: Request, st: Status, sidecar: Sidecar, log: Option<Import>)
    requires !st.TargetReached? && !(Tentative(q, st) && Proven(q, sidecar, log))
    ensures Unchecked(q, st, sidecar, log)
         == if st.WorkUnproven? && TooSlowFor(q, Judged(q, sidecar, log)) then TooSlow else st
  {
    hide FastSyncProves, ChainAccProves, Shows, Measurement, ApplySpeed, Measures, InBand, BelowFloor;
    var i := Judged(q, sidecar, log);
    if i.Some? {
      ShowsIff(q, i.value);
      SpeedIs(q, st, i.value);
      SpeedIs(q, TooSlow, i.value);
    }
  }

  /** A success that is withdrawn before the checks is withdrawn for a missing or unreadable sidecar, or for its
      speed. */
  lemma WithdrawnAs(q: Request, sidecar: Sidecar, log: Option<Import>)
    ensures Unchecked(q, TargetReached, sidecar, log)
         == if q.source != FastSync then TargetReached
            else if sidecar.Missing? then FastSyncReportMissing
            else if sidecar.Invalid? then FastSyncReportInvalid
            else if TooSlowFor(q, sidecar.contents) && !Proven(q, sidecar, log) then TooSlow
            else if TooFastFor(q, sidecar.contents) then TooFast
            else TargetReached
  {
    hide FastSyncProves, ChainAccProves, Shows, Measurement, ApplySpeed, Measures, InBand, BelowFloor;
    if q.source == FastSync && sidecar.Present? && sidecar.contents.Some? {
      var i := sidecar.contents.value;
      ShowsIff(q, i);
      SpeedIs(q, TargetReached, i);
      SpeedIs(q, TooSlow, i);
      OneSpeed(q, i);
    }
  }

  lemma OneSpeed(q: Request, i: Import)
    ensures !(TooSlowFor(q, Some(i)) && TooFastFor(q, Some(i)))
  {
  }

  /** What the verdict would be if no check were required. */
  ghost function Unchecked(q: Request, st: Status, sidecar: Sidecar, log: Option<Import>): Status {
    RecoverFastSync(q, AfterChainAcc(q, AfterFastSync(q, st, sidecar), log), SidecarImport(q, sidecar))
  }

  /** The checks only ever lower a success, and name the first check that failed. */
  lemma ChecksLowerSuccess(q: Request, st: Status, sidecar: Sidecar, log: Option<Import>, c: Checks, p: Probe)
    ensures var before, after := Unchecked(q, st, sidecar, log), Verdict(q, st, sidecar, log, c, p);
            after ==
              if before != TargetReached || ChecksPass(c, p) then before
              else if c.requireHeight && !HeightsMatch(p) then HeightMismatch
              else ReferenceMismatch
  {
    RecoverTwice(q, AfterFastSync(q, st, sidecar), SidecarImport(q, sidecar));
  }

  /** Recovering again changes nothing. */
  lemma RecoverTwice(q: Request, st: Status, i: Option<Import>)
    ensures RecoverFastSync(q, RecoverFastSync(q, st, i), i) == RecoverFastSync(q, st, i)
  {
  }

  /** A final success with a database and both checks required means equal heights and that every
      reference, at least one, returned exactly the local root. */
  lemma SuccessIsVerified(q: Request, st: Status, sidecar: Sidecar, log: Option<Import>, c: Checks, p: Probe)
    requires p.db && c.requireHeight && c.requireReference
    requires Verdict(q, st, sidecar, log, c, p) == TargetReached
    ensures p.chainHeight.Some? && p.chainHeight == p.stateHeight
    ensures p.localRoot.Some? && EffectiveReferences(c) != []
    ensures forall u :: u in EffectiveReferences(c) ==> p.answer(u) == p.localRoot
    ensures forall u :: u in c.references ==> p.answer(u) == p.localRoot
  {
  }
}
