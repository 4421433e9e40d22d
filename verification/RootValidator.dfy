/** The continuous state-root validator.

    The validator compares local with reference state roots block by block and
    survives crashes through its resume file. RPC answers, the height of the local
    node and the moments of interrupts and crashes are inputs. `AtLoopHead` holds at
    the head of the main loop of every run, `Validate` speaks of every status that a
    run publishes, and `RunSessions` covers all sequences of runs.
 */
module RootValidator {
  import opened Wrappers
  import opened CheckpointStages

  type Samples = int -> Option<Root>

  datatype HeightAnswer = RpcError | Reported(height: Option<int>)

  /** Where a keyboard interrupt hits a pass: before the batch, after some of its comparisons, or between
      the steps that record it. */
  datatype Point = Early | Comparing(done: nat) | Saved | Recorded

  /** A killed process leaves no trace of the pass. */
  datatype Halt = Never | Kill | Keyboard(at: Point)

  /** What one pass of the main loop gets to see, and whether it is cut short. */
  datatype Answers = Answers(height: HeightAnswer, local: Samples, reference: Samples, halt: Halt)

  datatype Config = Config(batch: nat, mismatchLimit: nat, once: bool, stopAt: Option<int>)

  datatype Verdict = Verdict(index: int, local: Root, reference: Root)

  /** The variables of one run, with the comparisons it made in order. */
  datatype Run = Run(
    start: int,
    next: int,
    last: int,
    compared: nat,
    matched: nat,
    mismatched: nat,
    roots: map<int, Root>,
    target: Option<int>,
    locked: bool,
    log: seq<Verdict>)

  /** How a run ends; `Stopped` if it would still go on after the given passes. */
  datatype Exit = Complete | Aborted | Interrupted | Killed | Stopped

  /** What the command-line parser enforces. */
  predicate Acceptable(config: Config) {
    1 <= config.batch && 1 <= config.mismatchLimit
  }

  function Min(a: int, b: int): int {
    if a < b then a else b
  }

  // ----- one batch -----

  predicate Compared(local: Samples, reference: Samples, i: int) {
    local(i).Some? && reference(i).Some?
  }

  /** The comparisons of the blocks from `start` on, one for each block and in order. */
  ghost predicate Consecutive(log: seq<Verdict>, start: int) {
    forall i :: 0 <= i < |log| ==> log[i].index == start + i
  }

  ghost predicate Genuine(v: Verdict, local: Samples, reference: Samples) {
    local(v.index) == Some(v.local) && reference(v.index) == Some(v.reference)
  }

  ghost function Mismatches(log: seq<Verdict>): nat {
    if log == [] then 0
    else
      var n := |log| - 1;
      Mismatches(log[..n]) + if log[n].local != log[n].reference then 1 else 0
  }

  /** The roots on which both sides agreed. */
  ghost function Agreed(log: seq<Verdict>): map<int, Root> {
    if log == [] then map[]
    else
      var n := |log| - 1;
      if log[n].local == log[n].reference then Agreed(log[..n])[log[n].index := log[n].local] else Agreed(log[..n])
  }

  datatype Ending = Finished | Paused | Limit | Cut

  datatype Batch = Batch(matched: nat, mismatched: nat, ending: Ending, roots: map<int, Root>, log: seq<Verdict>)

  /** The log and totals of a batch that has compared the blocks from `from` on. */
  ghost predicate BatchLog(local: Samples, reference: Samples, from: int, r: Batch) {
    && Consecutive(r.log, from)
    && (forall i :: 0 <= i < |r.log| ==> Genuine(r.log[i], local, reference))
    && r.mismatched == Mismatches(r.log)
    && r.matched + r.mismatched == |r.log|
    && r.roots == Agreed(r.log)
  }

  /** How a batch of the blocks `from` to `to` ends when `earlier` mismatches are already known. */
  ghost predicate BatchEnd(
    local: Samples, reference: Samples, from: int, to: int, earlier: nat, limit: nat, cut: Option<nat>, r: Batch)
  {
    var next := from + |r.log|;
    && next <= to + 1
    && (r.ending.Finished? ==> next == to + 1)
    && (r.ending.Paused? ==> next <= to && !Compared(local, reference, next))
    && (r.ending.Limit? ==> r.log != [] && earlier + r.mismatched == limit
                            && r.log[|r.log| - 1].local != r.log[|r.log| - 1].reference)
    && (!r.ending.Limit? ==> earlier + r.mismatched < limit)
    && (r.ending.Cut? ==> cut == Some(|r.log|))
  }

  lemma BatchLogStep(local: Samples, reference: Samples, from: int, r: Batch, v: Verdict)
    requires BatchLog(local, reference, from, r)
    requires v.index == from + |r.log| && Genuine(v, local, reference)
    ensures v.local == v.reference ==>
              BatchLog(local, reference, from,
                       r.(matched := r.matched + 1, roots := r.roots[v.index := v.local], log := r.log + [v]))
    ensures v.local != v.reference ==>
              BatchLog(local, reference, from, r.(mismatched := r.mismatched + 1, log := r.log + [v]))
  {
    hide Genuine;
    assert (r.log + [v])[..|r.log|] == r.log;
  }

  /** The comparison loop: it stops at a missing root and at the mismatch limit, or where it is cut short. */
  method CompareBatch(
    local: Samples, reference: Samples, from: int, to: int, earlier: nat, limit: nat, cut: Option<nat>)
    returns (r: Batch)
    requires from <= to && earlier < limit
    ensures BatchLog(local, reference, from, r)
    ensures BatchEnd(local, reference, from, to, earlier, limit, cut, r)
  {
    hide BatchLog;
    r := Batch(0, 0, Finished, map[], []);
    BatchLogStart(local, reference, from);
    var index := from;
    while index <= to && cut != Some(|r.log|)
      invariant index == from + |r.log| <= to + 1
      invariant r.ending.Finished? && earlier + r.mismatched < limit
      invariant BatchLog(local, reference, from, r)
      decreases 1 + to - index
    {
      if local(index).None? || reference(index).None? {
        BatchLogEnding(local, reference, from, r, Paused);
        r := r.(ending := Paused);
        return;
      }
      var v := Verdict(index, local(index).value, reference(index).value);
      BatchLogStep(local, reference, from, r, v);
      if v.local == v.reference {
        r := r.(matched := r.matched + 1, roots := r.roots[index := v.local], log := r.log + [v]);
      } else {
        r := r.(mismatched := r.mismatched + 1, log := r.log + [v]);
      }
      if limit <= earlier + r.mismatched {
        BatchLogEnding(local, reference, from, r, Limit);
        r := r.(ending := Limit);
        return;
      }
      index := index + 1;
    }
    if cut == Some(|r.log|) {
      BatchLogEnding(local, reference, from, r, Cut);
      r := r.(ending := Cut);
    }
  }

  lemma BatchLogStart(local: Samples, reference: Samples, from: int)
    ensures BatchLog(local, reference, from, Batch(0, 0, Finished, map[], []))
  {
  }

  lemma BatchLogEnding(local: Samples, reference: Samples, from: int, r: Batch, ending: Ending)
    requires BatchLog(local, reference, from, r)
    ensures BatchLog(local, reference, from, r.(ending := ending))
  {
  }

  // ----- one run -----

  /** The totals of a run that has compared the blocks of `log`, each once and in order from `start`. */
  ghost predicate Counted(start: int, matched: nat, mismatched: nat, log: seq<Verdict>) {
    && Consecutive(log, start)
    && mismatched == Mismatches(log)
    && matched + mismatched == |log|
  }

  ghost predicate Tallied(run: Run) {
    && run.compared == run.matched + run.mismatched == run.last - run.start + 1 == |run.log|
    && Counted(run.start, run.matched, run.mismatched, run.log)
  }

  /** The held roots are at the current heights and include base and latest exactly when those agreed. */
  ghost predicate RootsCurrent(roots: map<int, Root>, start: int, last: int, log: seq<Verdict>) {
    Kept(roots, start, last, Agreed(log))
  }

  /** At most three roots are held, each of a block that the run compared with equal roots. */
  ghost predicate RootsBacked(roots: map<int, Root>, log: seq<Verdict>) {
    Backed(roots, Agreed(log))
  }

  /** The state of a run at the head of the main loop. */
  ghost predicate AtLoopHead(config: Config, run: Run) {
    && run.next == run.last + 1
    && Tallied(run)
    && RootsCurrent(run.roots, run.start, run.last, run.log)
    && run.mismatched < config.mismatchLimit
    && (!run.locked ==> run.target == config.stopAt)
    && (config.stopAt.Some? ==> run.target.Some? && run.target.value <= config.stopAt.value)
  }

  function StartBlock(start: Option<int>, resume: Option<int>): int {
    if start.Some? then start.value else if resume.Some? then resume.value + 1 else 0
  }

  /** The comparisons of a batch are counted as they are made; the next block and the roots wait. */
  function Extend(run: Run, b: Batch): Run {
    run.(last := run.last + |b.log|,
         compared := run.compared + |b.log|,
         matched := run.matched + b.matched,
         mismatched := run.mismatched + b.mismatched,
         log := run.log + b.log)
  }

  lemma {:induction false} LogConcat(a: seq<Verdict>, b: seq<Verdict>)
    ensures Mismatches(a + b) == Mismatches(a) + Mismatches(b)
    ensures Agreed(a + b) == Agreed(a) + Agreed(b)
  {
    if b == [] {
      assert a + b == a;
    } else {
      var n := |b| - 1;
      assert (a + b)[..|a| + n] == a + b[..n];
      LogConcat(a, b[..n]);
    }
  }

  /** `Agreed` holds exactly the compared blocks with equal roots, and their roots. */
  lemma {:induction false} AgreedMeans(log: seq<Verdict>, start: int, h: int, root: Root)
    requires Consecutive(log, start)
    ensures h in Agreed(log) && Agreed(log)[h] == root
       <==> 0 <= h - start < |log| && log[h - start] == Verdict(h, root, root)
    ensures h in Agreed(log) ==> start <= h < start + |log|
  {
    if log != [] {
      AgreedMeans(log[..|log| - 1], start, h, root);
    }
  }

  lemma AgreedWithin(log: seq<Verdict>, start: int)
    requires Consecutive(log, start)
    ensures Within(Agreed(log), start, start + |log|)
  {
    forall h ensures h in Agreed(log) ==> start <= h < start + |log| {
      AgreedMeans(log, start, h, "");
    }
  }

  /** What agreed early on still agrees in the whole log. */
  lemma AgreedGrows(a: seq<Verdict>, b: seq<Verdict>, start: int)
    requires Consecutive(a + b, start)
    ensures forall h :: h in Agreed(a) ==> h in Agreed(a + b) && Agreed(a + b)[h] == Agreed(a)[h]
  {
    hide Agreed;
    assert forall i :: 0 <= i < |a| ==> (a + b)[i] == a[i];
    assert forall i :: 0 <= i < |b| ==> (a + b)[|a| + i] == b[i];
    LogConcat(a, b);
    AgreedWithin(a, start);
    AgreedWithin(b, start + |a|);
  }

  /** Recording a batch keeps the totals. */
  lemma BatchIsTallied(run: Run, local: Samples, reference: Samples, b: Batch)
    requires Tallied(run) && BatchLog(local, reference, run.last + 1, b)
    ensures Tallied(Extend(run, b))
  {
    hide Agreed, Genuine;
    LogConcat(run.log, b.log);
  }

  /** The roots held before a batch stay backed while it goes on. */
  lemma HeldStayBacked(run: Run, local: Samples, reference: Samples, b: Batch)
    requires Tallied(run) && RootsCurrent(run.roots, run.start, run.last, run.log)
    requires BatchLog(local, reference, run.last + 1, b)
    ensures RootsBacked(run.roots, Extend(run, b).log)
  {
    hide Agreed, Mismatches, Genuine, Kept, Within, Backed;
    LogConcat(run.log, b.log);
    AgreedWithin(run.log, run.start);
    AgreedWithin(b.log, run.last + 1);
    KeptIsBacked(run.roots, run.start, run.last, Agreed(run.log), Agreed(b.log), run.last + 1 + |b.log|);
  }

  /** The roots retained once a batch has neither hit the limit nor been cut short are at current heights. */
  lemma BatchKeepsRoots(run: Run, local: Samples, reference: Samples, b: Batch)
    requires Tallied(run) && RootsCurrent(run.roots, run.start, run.last, run.log)
    requires BatchLog(local, reference, run.last + 1, b) && !b.ending.Limit? && !b.ending.Cut?
    ensures var after := Extend(run, b);
            RootsCurrent(if 0 <= after.last then Retained(run.roots, run.start, after.last, b.roots) else run.roots,
                         run.start, after.last, after.log)
  {
    hide Agreed, Mismatches, Genuine, Retained, Kept, Within;
    LogConcat(run.log, b.log);
    AgreedWithin(run.log, run.start);
    AgreedWithin(b.log, run.last + 1);
    RetainingKeeps(run.roots, run.start, run.last, run.last + |b.log|, Agreed(run.log), b.roots);
  }

  lemma KeptIsBacked(roots: map<int, Root>, start: int, last: int, agreed: map<int, Root>, later: map<int, Root>, end: int)
    requires Kept(roots, start, last, agreed)
    requires Within(agreed, start, last + 1) && Within(later, last + 1, end)
    ensures Backed(roots, agreed + later)
  {
  }

  lemma HeadIsBacked(roots: map<int, Root>, start: int, last: int, log: seq<Verdict>)
    requires RootsCurrent(roots, start, last, log)
    ensures RootsBacked(roots, log)
  {
    hide Agreed;
  }

  lemma HeadHeights(run: Run, last: int)
    requires RootsCurrent(run.roots, run.start, run.last, run.log) && run.last <= last
    ensures AtHeights(run.roots, StageHeights(run.start, last)) <==> Unmoved(run.roots, run.start, run.last, last)
  {
    hide Agreed, StageHeights;
    HeldAreCurrentIff(run.roots, run.start, run.last, last);
  }

  lemma LogAppend(log: seq<Verdict>, v: Verdict)
    ensures Mismatches(log + [v]) == Mismatches(log) + if v.local != v.reference then 1 else 0
    ensures Agreed(log + [v]) == if v.local == v.reference then Agreed(log)[v.index := v.local] else Agreed(log)
  {
    assert (log + [v])[..|log|] == log;
  }

  lemma AgreedPair(i: int, j: int, root: Root)
    requires i != j
    ensures var log := [Verdict(i, root, root), Verdict(j, root, root)];
            Mismatches(log) == 0 && Agreed(log) == map[i := root, j := root]
  {
    LogAppend([], Verdict(i, root, root));
    LogAppend([Verdict(i, root, root)], Verdict(j, root, root));
    assert [] + [Verdict(i, root, root)] == [Verdict(i, root, root)];
    assert [Verdict(i, root, root)] + [Verdict(j, root, root)] == [Verdict(i, root, root), Verdict(j, root, root)];
  }

  function EarlyRun(good: Root): Run {
    Run(0, 2, 1, 2, 2, 0, map[0 := good, 1 := good], None, false, [Verdict(0, good, good), Verdict(1, good, good)])
  }

  function FailingBatch(good: Root, bad: Root): Batch {
    Batch(2, 1, Limit, map[2 := good, 3 := good],
          [Verdict(2, good, good), Verdict(3, good, good), Verdict(4, good, bad)])
  }

  lemma EarlyRunAtHead(good: Root)
    ensures AtLoopHead(Config(8, 1, false, None), EarlyRun(good))
  {
    hide Agreed, Mismatches;
    AgreedPair(0, 1, good);
    assert EarlyRun(good).roots.Keys == {0, 1};
  }

  lemma FailingBatchEnds(good: Root, bad: Root)
    requires good != bad
    ensures var local: Samples, reference: Samples := h => Some(good), h => Some(if h == 4 then bad else good);
            && BatchLog(local, reference, 2, FailingBatch(good, bad))
            && BatchEnd(local, reference, 2, 9, 0, 1, None, FailingBatch(good, bad))
  {
    hide Agreed, Mismatches;
    var log, v := [Verdict(2, good, good), Verdict(3, good, good)], Verdict(4, good, bad);
    AgreedPair(2, 3, good);
    LogAppend(log, v);
    assert log + [v] == FailingBatch(good, bad).log;
  }

  /** So a run that hits the limit can publish roots at former heights: here blocks 0 to 3 agree, block 4
      does not, and the root of block 1 is held although the heights are 0, 2 and 4 by then. */
  lemma AbortLeavesOldRoots(good: Root, bad: Root)
    requires good != bad
    ensures var local: Samples, reference: Samples := h => Some(good), h => Some(if h == 4 then bad else good);
            var run, b := EarlyRun(good), FailingBatch(good, bad);
            && AtLoopHead(Config(8, 1, false, None), run)
            && BatchLog(local, reference, run.next, b)
            && BatchEnd(local, reference, run.next, 9, run.mismatched, 1, None, b)
            && !AtHeights(run.roots, StageHeights(run.start, Extend(run, b).last))
  {
    hide AtLoopHead, BatchLog, BatchEnd;
    EarlyRunAtHead(good);
    FailingBatchEnds(good, bad);
    assert 1 in EarlyRun(good).roots && 1 !in StageHeights(0, 4);
  }

  /** Every comparison in `log` was made with roots that both sides returned in some pass. */
  ghost predicate Answered(log: seq<Verdict>, passes: seq<Answers>) {
    forall i :: 0 <= i < |log| ==> AnsweredIn(log[i], passes)
  }

  ghost predicate AnsweredIn(v: Verdict, passes: seq<Answers>) {
    exists p :: p in passes && Genuine(v, p.local, p.reference)
  }

  lemma AnsweredExtend(log: seq<Verdict>, passes: seq<Answers>, from: int, p: Answers, b: Batch)
    requires Answered(log, passes) && p in passes && BatchLog(p.local, p.reference, from, b)
    ensures Answered(log + b.log, passes)
  {
    hide Genuine;
  }

  // ----- what is published -----

  datatype Kind =
    | WaitingLocalRpc
    | WaitingForSync
    | CompleteClean
    | CompleteWithMismatches
    | Pass
    | Fail
    | PausedOnRpcError
    | InterruptedByUser

  datatype Status = Status(
    kind: Kind,
    next: int,
    last: int,
    compared: nat,
    matched: nat,
    mismatched: nat,
    target: Option<int>,
    stages: seq<Stage>)

  function Publish(run: Run, kind: Kind, next: int): Status {
    Status(kind, next, run.last, run.compared, run.matched, run.mismatched, run.target,
           BuildStages(run.start, run.last, run.roots))
  }

  /** The totals of a status are those of the blocks from `start` to its last block, and every stage that it
      marks as verified is one of those blocks, compared with equal roots. */
  ghost predicate Truthful(s: Status, start: int, log: seq<Verdict>) {
    && s.compared == s.matched + s.mismatched == s.last - start + 1 <= |log|
    && s.mismatched == Mismatches(log[..s.compared])
    && start <= s.next <= s.last + 1
    && StagesFor(s.stages, start, s.last) && StagesTruthful(s.stages, Agreed(log))
    && (s.kind.Pass? || s.kind.CompleteClean? ==> s.mismatched == 0)
    && (s.kind.Fail? || s.kind.CompleteWithMismatches? ==> 0 < s.mismatched)
  }

  ghost predicate StagesTruthful(stages: seq<Stage>, agreed: map<int, Root>) {
    forall st :: st in stages && st.verifiedRoot.Some? ==>
      st.height in agreed && st.verifiedRoot.value == agreed[st.height]
  }

  ghost predicate AllTruthful(published: seq<Status>, start: int, log: seq<Verdict>) {
    forall i :: 0 <= i < |published| ==> Truthful(published[i], start, log)
  }

  lemma PublishTruthful(run: Run, kind: Kind, next: int)
    requires Tallied(run) && RootsBacked(run.roots, run.log) && run.start <= next <= run.last + 1
    requires kind.Pass? || kind.CompleteClean? ==> run.mismatched == 0
    requires kind.Fail? || kind.CompleteWithMismatches? ==> 0 < run.mismatched
    ensures Truthful(Publish(run, kind, next), run.start, run.log)
    ensures var s := Publish(run, kind, next);
            s.kind == kind && s.next == next && s.last == run.last && s.target == run.target && s.mismatched == run.mismatched
  {
    hide Agreed, Mismatches, BuildStages, StageHeights, StagesFor;
    VerifiedStagesAgreed(run.start, run.last, run.roots, Agreed(run.log));
    StagesAre(run.start, run.last, run.roots);
    assert run.log[..run.compared] == run.log;
  }

  /** Base and latest are marked as verified exactly if the comparisons so far had equal roots there. */
  ghost predicate EndsVerified(s: Status, log: seq<Verdict>) {
    && s.compared <= |log|
    && forall st :: st in s.stages && st.name != "mid" ==>
         (st.verifiedRoot.Some? <==> st.height in Agreed(log[..s.compared]))
  }

  lemma HeadVerified(config: Config, run: Run, kind: Kind, next: int)
    requires AtLoopHead(config, run)
    ensures EndsVerified(Publish(run, kind, next), run.log)
  {
    hide Agreed, BuildStages, Kept, Counted;
    assert run.log[..run.compared] == run.log;
    EndsAreVerified(run.start, run.last, run.roots, Agreed(run.log));
  }

  ghost predicate AllVerified(published: seq<Status>, log: seq<Verdict>, n: int) {
    forall i :: 0 <= i < |published| && i < n ==> EndsVerified(published[i], log)
  }

  lemma AllVerifiedStay(published: seq<Status>, a: seq<Verdict>, b: seq<Verdict>, n: int, s: Status)
    requires AllVerified(published, a, |published|) && a <= b && n <= |published| + 1
    requires n == |published| + 1 ==> EndsVerified(s, b)
    ensures AllVerified(published + [s], b, n)
  {
    hide Agreed;
    forall i | 0 <= i < |published| ensures EndsVerified(published[i], b) {
      assert EndsVerified(published[i], a);
      assert b[..published[i].compared] == a[..published[i].compared];
    }
  }

  lemma TruthfulStays(s: Status, start: int, a: seq<Verdict>, b: seq<Verdict>)
    requires Truthful(s, start, a) && a <= b && Consecutive(b, start)
    ensures Truthful(s, start, b)
  {
    hide Agreed, Mismatches, StagesFor;
    assert b == a + b[|a|..];
    assert b[..s.compared] == a[..s.compared];
    AgreedGrows(a, b[|a|..], start);
  }

  lemma AllTruthfulStay(published: seq<Status>, start: int, a: seq<Verdict>, b: seq<Verdict>)
    requires AllTruthful(published, start, a) && a <= b && Consecutive(b, start)
    ensures AllTruthful(published, start, b)
  {
    hide Truthful, Consecutive;
    forall i | 0 <= i < |published| ensures Truthful(published[i], start, b) {
      TruthfulStays(published[i], start, a, b);
    }
  }

  function HeightOf(p: Answers): int
    requires p.height.Reported?
  {
    if p.height.height.Some? then p.height.height.value else -1
  }

  /** The local node reports a height below `from`, or none at all. */
  predicate Below(p: Answers, from: int)
    requires p.height.Reported?
  {
    if p.height.height.Some? then p.height.height.value < from else 0 <= from
  }

  /** The local node reports a height at which block `from` can be compared. */
  predicate Offers(p: Answers, from: int) {
    p.height.Reported? && !p.halt.Kill? && !Below(p, from)
  }

  ghost predicate Offered(passes: seq<Answers>, from: int) {
    exists p :: p in passes && Offers(p, from)
  }

  lemma OfferedBy(p: Answers, passes: seq<Answers>, from: int, next: int)
    requires p in passes && from <= next && Offers(p, next)
    ensures Offered(passes, from)
  {
    assert Offers(p, from);
  }

  /** The pass did all it could: from the block `before` it went on to `after`, where a full batch, the
      local height, the target or a missing root ends it. */
  ghost predicate Exhausted(config: Config, before: int, after: int, target: Option<int>, p: Answers) {
    || p.height.RpcError?
    || after - before == config.batch
    || Below(p, after + 1)
    || (target.Some? && target.value <= after)
    || !Compared(p.local, p.reference, after + 1)
  }

  /** What a finished pass publishes: whether it waits, is complete, was stopped by a missing root or compared
      all it was to compare, and the block that comes next. */
  ghost predicate Reports(config: Config, before: int, s: Status, p: Answers) {
    && s.next == s.last + 1
    && s.kind ==
         if p.height.RpcError? then WaitingLocalRpc
         else if s.target.Some? && s.target.value <= before then
           (if s.mismatched == 0 then CompleteClean else CompleteWithMismatches)
         else if Below(p, before + 1) then WaitingForSync
         else if s.last - before < config.batch && !Below(p, s.last + 1) && (s.target.Some? ==> s.last < s.target.value)
         then PausedOnRpcError
         else if s.mismatched == 0 then Pass else Fail
  }

  // ----- the target -----

  /** The pass gets to see a height. */
  predicate Sees(p: Answers) {
    p.height.Reported? && !p.halt.Kill? && p.halt != Keyboard(Early)
  }

  /** The first height that the passes see; no height counts as -1. */
  ghost function FirstHeight(passes: seq<Answers>): Option<int> {
    if passes == [] then None
    else
      var n := |passes| - 1;
      var earlier, p := FirstHeight(passes[..n]), passes[n];
      if earlier.Some? || !Sees(p) then earlier
      else if p.height.height.Some? then p.height.height
      else Some(-1)
  }

  /** A one-shot run ends at the first height seen or at the requested end, whichever is lower; any other run
      ends at the requested end only. */
  ghost predicate TargetIs(config: Config, seen: Option<int>, target: Option<int>) {
    if !config.once || seen.None? then target == config.stopAt
    else
      && target.Some? && target.value <= seen.value && (config.stopAt.Some? ==> target.value <= config.stopAt.value)
      && (target == seen || target == config.stopAt)
  }

  lemma FirstHeightStep(passes: seq<Answers>, i: nat)
    requires i < |passes|
    ensures var before, after, p := FirstHeight(passes[..i]), FirstHeight(passes[..i + 1]), passes[i];
            after == if before.Some? || !Sees(p) then before else if p.height.height.Some? then p.height.height else Some(-1)
  {
    assert passes[..i + 1][..i] == passes[..i];
  }

  // ----- one pass -----

  datatype Step = Idle | Progress | Done | Failed | Broken | Lost

  /** One batch of the main loop, from the next block to `end`, and what is done to record it. */
  method ExtendRun(config: Config, run: Run, pass: Answers, end: int, ghost passes: seq<Answers>)
    returns (run': Run, step: Step, paused: bool, saved: bool)
    requires AtLoopHead(config, run) && run.last < end && !pass.halt.Kill?
    requires pass in passes && Answered(run.log, passes)
    ensures run' == run.(next := run'.next, last := run'.last, compared := run'.compared, matched := run'.matched,
                         mismatched := run'.mismatched, roots := run'.roots, log := run'.log)
    ensures Tallied(run') && RootsBacked(run'.roots, run'.log) && run.log <= run'.log && run.last <= run'.last <= end
    ensures Answered(run'.log, passes)
    ensures step.Progress? || step.Failed? || step.Broken?
    ensures step.Failed? ==> run'.mismatched == config.mismatchLimit && run.last < run'.last && saved
    ensures step.Failed? ==> run'.roots == run.roots && run'.next == run.next
    ensures step.Broken? ==> pass.halt.Keyboard? && run'.mismatched < config.mismatchLimit && run'.next == run.next
    ensures step.Broken? && pass.halt.at != Recorded ==> run'.roots == run.roots
    ensures step.Progress? ==> AtLoopHead(config, run') && (0 <= run'.last ==> saved)
    ensures step.Progress? ==> run'.last == end || !Compared(pass.local, pass.reference, run'.last + 1)
    ensures step.Progress? ==> (paused <==> run'.last < end)
  {
    hide Counted, RootsCurrent, RootsBacked, BatchLog, Retained, StageHeights, Answered, Compared;
    var cut := if pass.halt.Keyboard? && pass.halt.at.Comparing? then Some(pass.halt.at.done) else None;
    var b := CompareBatch(pass.local, pass.reference, run.next, end, run.mismatched, config.mismatchLimit, cut);
    BatchIsTallied(run, pass.local, pass.reference, b);
    HeldStayBacked(run, pass.local, pass.reference, b);
    AnsweredExtend(run.log, passes, run.next, pass, b);
    run', paused, saved := Extend(run, b), b.ending.Paused?, false;
    if b.ending.Cut? {
      return run', Broken, paused, saved;
    }
    if b.ending.Limit? {
      return run', Failed, paused, true;
    }
    BatchKeepsRoots(run, pass.local, pass.reference, b);
    saved := 0 <= run'.last;
    if pass.halt == Keyboard(Saved) {
      return run', Broken, paused, saved;
    }
    if 0 <= run'.last {
      var roots := RetainStageRoots(run.roots, run.start, run'.last, b.roots);
      run' := run'.(roots := roots);
    }
    HeadIsBacked(run'.roots, run'.start, run'.last, run'.log);
    if pass.halt == Keyboard(Recorded) {
      return run', Broken, paused, saved;
    }
    run' := run'.(next := run'.last + 1);
    step := Progress;
  }

  /** The batch and the status that is published about it. */
  method RecordBatch(config: Config, run: Run, pass: Answers, end: int, ghost passes: seq<Answers>)
    returns (run': Run, step: Step, status: Status, saved: bool)
    requires AtLoopHead(config, run) && run.last < end && !pass.halt.Kill?
    requires pass in passes && Answered(run.log, passes)
    ensures run'.start == run.start && run'.target == run.target
    ensures Tallied(run') && RootsBacked(run'.roots, run'.log) && run.log <= run'.log && run.last <= run'.last <= end
    ensures Answered(run'.log, passes)
    ensures step.Progress? || step.Failed? || step.Broken?
    ensures step.Failed? ==> run'.mismatched == config.mismatchLimit && run.last < run'.last && saved && run'.roots == run.roots
    ensures step.Broken? ==> pass.halt.Keyboard? && run'.mismatched < config.mismatchLimit
    ensures step.Broken? && pass.halt.at != Recorded ==> run'.roots == run.roots
    ensures step.Progress? ==> AtLoopHead(config, run') && (0 <= run'.last ==> saved)
    ensures step.Progress? ==> run'.last == end || !Compared(pass.local, pass.reference, run'.last + 1)
    ensures Truthful(status, run'.start, run'.log)
    ensures status.last == run'.last && status.target == run'.target
    ensures run'.locked == run.locked && status.mismatched == run'.mismatched
    ensures step.Broken? ==> status.kind == InterruptedByUser && status.next == run.next
    ensures step.Failed? ==> status.kind == Fail && status.next == run'.last + 1
    ensures step.Progress? ==>
              && status.next == run'.last + 1
              && status.kind ==
                   if run'.last < end then PausedOnRpcError else if run'.mismatched == 0 then Pass else Fail
    ensures step.Progress? ==> EndsVerified(status, run'.log)
  {
    hide Counted, RootsCurrent, RootsBacked, Answered, Compared, Truthful, Publish, EndsVerified;
    var paused;
    run', step, paused, saved := ExtendRun(config, run, pass, end, passes);
    var kind := if step.Broken? then InterruptedByUser
                else if step.Failed? then Fail
                else if paused then PausedOnRpcError
                else if run'.mismatched == 0 then Pass else Fail;
    var next := if step.Failed? then run'.last + 1 else run'.next;
    PublishTruthful(run', kind, next);
    if step.Progress? {
      HeadVerified(config, run', kind, next);
    }
    status := Publish(run', kind, next);
  }

  /** A one-shot run takes the first height it sees as its target. */
  function LockTarget(config: Config, run: Run, height: int): Run {
    if config.once && !run.locked
    then run.(target := Some(if run.target.Some? then Min(height, run.target.value) else height), locked := true)
    else run
  }

  /** What a pass does to the target: it is fixed by the first height that a one-shot run sees. */
  ghost predicate Locks(config: Config, run: Run, pass: Answers, run': Run) {
    && run'.locked == (run.locked || (config.once && Sees(pass)))
    && (if config.once && Sees(pass) && !run.locked
        then TargetIs(config, Some(if pass.height.height.Some? then pass.height.height.value else -1), run'.target)
        else run'.target == run.target)
  }

  /** The rest of a pass, once a height is known and the target is locked. */
  method ContinuePass(config: Config, run: Run, pass: Answers, ghost passes: seq<Answers>)
    returns (run': Run, step: Step, status: Status, saved: bool)
    requires Acceptable(config) && AtLoopHead(config, run) && RootsBacked(run.roots, run.log)
    requires pass in passes && Answered(run.log, passes) && pass.height.Reported? && !pass.halt.Kill?
    ensures Tallied(run') && RootsBacked(run'.roots, run'.log) && Answered(run'.log, passes)
    ensures run'.start == run.start && run.log <= run'.log && run.last <= run'.last
    ensures run'.target == run.target && run'.locked == run.locked
    ensures run.target.Some? ==> run'.last <= Max(run.last, run.target.value)
    ensures step.Failed? ==> run'.mismatched == config.mismatchLimit && run.last < run'.last && run'.roots == run.roots
    ensures step.Broken? ==> pass.halt.Keyboard? && run'.mismatched < config.mismatchLimit
    ensures step.Broken? && pass.halt.at != Recorded ==> run'.roots == run.roots
    ensures !step.Failed? && !step.Broken? ==> AtLoopHead(config, run')
    ensures !step.Failed? && !step.Broken? ==> PassReports(config, run.last, status, pass) && EndsVerified(status, run'.log)
    ensures step.Done? ==> run'.target.Some? && run'.target.value <= run'.last
    ensures step.Idle? || step.Done? ==> run' == run && !saved
    ensures !step.Lost? && (saved ==> Offers(pass, run.next))
    ensures step.Failed? || (step.Progress? && 0 <= run'.last) ==> saved
    ensures Truthful(status, run'.start, run'.log) && status.last == run'.last && status.target == run'.target
    ensures step.Broken? ==> status.kind == InterruptedByUser && status.next == run.next
    ensures step.Failed? ==> status.kind == Fail && status.next == run'.last + 1
  {
    hide Counted, RootsCurrent, RootsBacked, Answered, Compared, Truthful, Publish, EndsVerified;
    run', saved := run, false;
    if run.target.Some? && run.target.value < run.next {
      var kind := if run.mismatched == 0 then CompleteClean else CompleteWithMismatches;
      PublishTruthful(run, kind, run.next);
      HeadVerified(config, run, kind, run.next);
      return run, Done, Publish(run, kind, run.next), saved;
    }
    var height := HeightOf(pass);
    var end := Min(height, run.next + config.batch - 1);
    if run.target.Some? {
      end := Min(end, run.target.value);
    }
    if end < run.next {
      PublishTruthful(run, WaitingForSync, run.next);
      HeadVerified(config, run, WaitingForSync, run.next);
      return run, Idle, Publish(run, WaitingForSync, run.next), saved;
    }
    run', step, status, saved := RecordBatch(config, run, pass, end, passes);
  }

  /** One pass of the main loop and the status that it publishes. */
  method OnePass(config: Config, run: Run, pass: Answers, ghost passes: seq<Answers>)
    returns (run': Run, step: Step, status: Option<Status>, saved: bool)
    requires Acceptable(config) && AtLoopHead(config, run)
    requires pass in passes && Answered(run.log, passes)
    ensures Tallied(run') && RootsBacked(run'.roots, run'.log) && Answered(run'.log, passes)
    ensures run'.start == run.start && run.log <= run'.log && run.last <= run'.last
    ensures config.stopAt.Some? ==> run'.last <= Max(run.last, config.stopAt.value)
    ensures step.Failed? ==> run'.mismatched == config.mismatchLimit && run.last < run'.last && run'.roots == run.roots
    ensures step.Broken? ==> pass.halt.Keyboard? && run'.mismatched < config.mismatchLimit
    ensures step.Broken? && pass.halt.at != Recorded ==> run'.roots == run.roots
    ensures !step.Failed? && !step.Broken? ==> AtLoopHead(config, run')
    ensures step.Done? ==> run'.target.Some? && run'.target.value <= run'.last
    ensures step.Idle? || step.Done? || step.Lost? ==> run'.last == run.last && run'.log == run.log && !saved
    ensures step.Lost? <==> pass.halt.Kill?
    ensures step.Lost? ==> run' == run
    ensures saved ==> Offers(pass, run.next)
    ensures step.Failed? || (step.Progress? && 0 <= run'.last) ==> saved
    ensures step.Lost? <==> status.None?
    ensures status.Some? ==> Truthful(status.value, run'.start, run'.log) && Locks(config, run, pass, run')
                             && status.value.last == run'.last && status.value.target == run'.target
    ensures step.Idle? || step.Progress? || step.Done? ==>
              PassReports(config, run.last, status.value, pass) && EndsVerified(status.value, run'.log)
    ensures step.Broken? ==> status.value.kind == InterruptedByUser && status.value.next == run.next
    ensures step.Failed? ==> status.value.kind == Fail && status.value.next == run'.last + 1
  {
    hide Counted, RootsCurrent, RootsBacked, Answered, Truthful, Publish, Tallied, EndsVerified;
    HeadIsBacked(run.roots, run.start, run.last, run.log);
    run', saved := run, false;
    if pass.halt.Kill? {
      return run', Lost, None, saved;
    }
    if pass.halt == Keyboard(Early) {
      HeadPublishes(config, run, InterruptedByUser);
      return run', Broken, Some(Publish(run', InterruptedByUser, run'.next)), saved;
    }
    if pass.height.RpcError? {
      HeadPublishes(config, run, WaitingLocalRpc);
      return run', Idle, Some(Publish(run', WaitingLocalRpc, run'.next)), saved;
    }
    run' := LockTarget(config, run', HeightOf(pass));
    HeadLocked(config, run, HeightOf(pass));
    var s;
    run', step, s, saved := ContinuePass(config, run', pass, passes);
    status := Some(s);
  }

  lemma HeadPublishes(config: Config, run: Run, kind: Kind)
    requires AtLoopHead(config, run) && RootsBacked(run.roots, run.log) && (kind.InterruptedByUser? || kind.WaitingLocalRpc?)
    ensures var s := Publish(run, kind, run.next);
            && Truthful(s, run.start, run.log) && EndsVerified(s, run.log)
            && s.kind == kind && s.next == run.next == run.last + 1 && s.last == run.last && s.target == run.target
  {
    hide Counted, RootsCurrent, RootsBacked, Truthful, Publish, EndsVerified;
    PublishTruthful(run, kind, run.next);
    HeadVerified(config, run, kind, run.next);
  }

  lemma HeadLocked(config: Config, run: Run, height: int)
    requires AtLoopHead(config, run)
    ensures AtLoopHead(config, LockTarget(config, run, height))
  {
    hide Counted, RootsCurrent;
  }

  // ----- a whole run -----

  ghost predicate PassReports(config: Config, before: int, s: Status, p: Answers) {
    Exhausted(config, before, s.last, s.target, p) && Reports(config, before, s, p)
  }

  /** Pass `i`, which published status `i`, did all it could and said so. */
  ghost predicate PassDone(config: Config, start: int, published: seq<Status>, passes: seq<Answers>, i: nat) {
    && i < |published| && i < |passes|
    && TargetIs(config, FirstHeight(passes[..i + 1]), published[i].target)
    && PassReports(config, if i == 0 then start - 1 else published[i - 1].last, published[i], passes[i])
  }

  ghost predicate PassesDone(config: Config, start: int, published: seq<Status>, passes: seq<Answers>, n: int) {
    forall i: nat :: i < n ==> PassDone(config, start, published, passes, i)
  }

  /** What the statuses published so far say: all are truthful, the first `n` are those of finished passes, which
      also mark base and latest as verified whenever those agreed, the target is as the passes have fixed it, and the last status is about the last block. */
  ghost predicate Journal(config: Config, passes: seq<Answers>, published: seq<Status>, run: Run, n: int) {
    && |published| <= |passes|
    && AllTruthful(published, run.start, run.log) && AllVerified(published, run.log, n)
    && PassesDone(config, run.start, published, passes, n)
    && TargetIs(config, FirstHeight(passes[..|published|]), run.target)
    && run.locked == (config.once && FirstHeight(passes[..|published|]).Some?)
    && run.last == LastOf(run, published)
  }

  ghost function LastOf(run: Run, published: seq<Status>): int {
    if published == [] then run.start - 1 else published[|published| - 1].last
  }

  lemma PassesDoneStep(config: Config, start: int, published: seq<Status>, passes: seq<Answers>, s: Status)
    requires PassesDone(config, start, published, passes, |published|) && |published| < |passes|
    ensures PassesDone(config, start, published + [s], passes, |published|)
    ensures PassReports(config, if published == [] then start - 1 else published[|published| - 1].last,
                        s, passes[|published|])
            && TargetIs(config, FirstHeight(passes[..|published| + 1]), s.target) ==>
              PassesDone(config, start, published + [s], passes, |published| + 1)
  {
    hide PassReports, TargetIs, FirstHeight;
    var all := published + [s];
    forall i: nat | i < |published| ensures PassDone(config, start, all, passes, i) {
      assert PassDone(config, start, published, passes, i);
    }
  }

  lemma TargetStep(config: Config, passes: seq<Answers>, i: nat, run: Run, run': Run)
    requires i < |passes| && TargetIs(config, FirstHeight(passes[..i]), run.target)
    requires run.locked == (config.once && FirstHeight(passes[..i]).Some?) && Locks(config, run, passes[i], run')
    ensures TargetIs(config, FirstHeight(passes[..i + 1]), run'.target)
    ensures run'.locked == (config.once && FirstHeight(passes[..i + 1]).Some?)
  {
    hide FirstHeight;
    FirstHeightStep(passes, i);
  }

  lemma JournalStep(config: Config, passes: seq<Answers>, published: seq<Status>, before: Run, run: Run, s: Status)
    requires Journal(config, passes, published, before, |published|) && |published| < |passes|
    requires before.start == run.start && before.log <= run.log && Tallied(run) && Truthful(s, run.start, run.log)
    requires s.last == run.last && s.target == run.target && Locks(config, before, passes[|published|], run)
    ensures Journal(config, passes, published + [s], run, |published|)
    ensures PassReports(config, before.last, s, passes[|published|]) && EndsVerified(s, run.log) ==>
              Journal(config, passes, published + [s], run, |published| + 1)
  {
    hide AllTruthful, AllVerified, PassesDone, TargetIs, FirstHeight, Truthful, PassReports, Locks, Tallied, EndsVerified;
    TargetStep(config, passes, |published|, before, run);
    PublishedGrow(published, run, before.log, s);
    PassesDoneStep(config, run.start, published, passes, s);
    AllVerifiedStay(published, before.log, run.log, |published|, s);
    if EndsVerified(s, run.log) {
      AllVerifiedStay(published, before.log, run.log, |published| + 1, s);
    }
  }

  /** The main loop. */
  method Validate(config: Config, start: Option<int>, resume: Option<int>, passes: seq<Answers>)
    returns (run: Run, resume': Option<int>, saved: bool, exit: Exit, published: seq<Status>)
    requires Acceptable(config)
    ensures run.start == if start.Some? then start.value else if resume.Some? then resume.value + 1 else 0
    ensures Tallied(run) && Answered(run.log, passes) && RootsBacked(run.roots, run.log)
    ensures exit != Aborted && exit != Interrupted ==> AtLoopHead(config, run)
    ensures exit == Aborted <==> run.mismatched == config.mismatchLimit
    ensures exit == Complete ==> run.target.Some? && Covered(run.log, run.start, run.target.value)
    ensures Journal(config, passes, published, run,
                    if exit == Aborted || exit == Interrupted then |published| - 1 else |published|)
    ensures exit == Stopped ==> |published| == |passes|
    ensures exit == Killed ==> |published| < |passes| && passes[|published|].halt.Kill?
    ensures exit == Interrupted || exit == Aborted ==> 0 < |published| <= |passes|
    ensures exit == Aborted ==> published[|published| - 1].kind == Fail
    ensures exit == Interrupted ==> passes[|published| - 1].halt.Keyboard?
                                    && published[|published| - 1].kind == InterruptedByUser
    ensures exit == Aborted || (exit == Interrupted && passes[|published| - 1].halt.at != Recorded) ==>
              (AtHeights(run.roots, StageHeights(run.start, run.last))
               <==> Unmoved(run.roots, run.start, LastOf(run, published[..|published| - 1]), run.last))
    ensures config.stopAt.Some? ==> run.last <= Max(run.start - 1, config.stopAt.value)
    ensures !saved ==> resume' == resume
    ensures saved ==> resume'.Some? && run.start - 1 <= resume'.value <= run.last
    ensures saved ==> Offered(passes, run.start)
    ensures exit != Interrupted && 0 <= run.last && run.start <= run.last ==> saved && resume' == Some(run.last)
    ensures exit == Aborted ==> saved && resume' == Some(run.last)
  {
    hide Tallied, RootsCurrent, RootsBacked, Answered, Truthful, PassReports, Locks, Journal, EndsVerified;
    hide StageHeights, AtHeights, Unmoved, Offered, Offers, Covered;
    var first := StartBlock(start, resume);
    run := Begin(config, first);
    BeginsAtHead(config, first, passes);
    resume', saved, exit, published := resume, false, Stopped, [];
    for i := 0 to |passes|
      invariant AtLoopHead(config, run) && run.start == first <= run.last + 1 && exit == Stopped
      invariant Answered(run.log, passes) && RootsBacked(run.roots, run.log)
      invariant |published| == i && Journal(config, passes, published, run, i) && run.last == LastOf(run, published)
      invariant config.stopAt.Some? ==> run.last <= Max(run.start - 1, config.stopAt.value)
      invariant !saved ==> resume' == resume
      invariant saved ==> resume'.Some? && run.start - 1 <= resume'.value <= run.last
      invariant saved ==> Offered(passes, run.start)
      invariant 0 <= run.last && run.start <= run.last ==> saved && resume' == Some(run.last)
    {
      ghost var before := run;
      var step, status, now;
      run, step, status, now := OnePass(config, run, passes[i], passes);
      if now {
        OfferedBy(passes[i], passes, run.start, before.next);
        resume', saved := Some(run.last), true;
      }
      if step.Lost? {
        exit := Killed;
        return;
      }
      JournalStep(config, passes, published, before, run, status.value);
      HeadHeights(before, run.last);
      assert (published + [status.value])[..i] == published;
      published := published + [status.value];
      if step.Done? {
        LogCovers(run, run.target.value);
      }
      exit := if step.Done? then Complete else if step.Failed? then Aborted else if step.Broken? then Interrupted else Stopped;
      if exit != Stopped {
        return;
      }
    }
  }

  lemma PublishedGrow(published: seq<Status>, run: Run, before: seq<Verdict>, s: Status)
    requires AllTruthful(published, run.start, before) && before <= run.log && Tallied(run)
    requires Truthful(s, run.start, run.log)
    ensures AllTruthful(published + [s], run.start, run.log)
  {
    hide Truthful, Mismatches;
    AllTruthfulStay(published, run.start, before, run.log);
  }

  function Begin(config: Config, first: int): Run {
    Run(first, first, first - 1, 0, 0, 0, map[], config.stopAt, false, [])
  }

  lemma BeginsAtHead(config: Config, first: int, passes: seq<Answers>)
    requires Acceptable(config)
    ensures var run := Begin(config, first);
            && AtLoopHead(config, run) && RootsBacked(run.roots, run.log)
            && Answered(run.log, passes) && Journal(config, passes, [], run, 0)
  {
    assert passes[..0] == [];
  }

  lemma LogCovers(run: Run, to: int)
    requires Tallied(run) && to <= run.last
    ensures Covered(run.log, run.start, to)
  {
    forall b | run.start <= b <= to ensures Logged(run.log, b) {
      assert run.log[b - run.start].index == b && run.log[b - run.start] in run.log;
    }
  }

  // ----- any number of runs -----

  datatype Session = Session(config: Config, start: Option<int>, passes: seq<Answers>)

  ghost predicate Covered(ledger: seq<Verdict>, from: int, to: int) {
    forall b :: from <= b <= to ==> Logged(ledger, b)
  }

  ghost predicate Logged(ledger: seq<Verdict>, b: int) {
    exists v :: v in ledger && v.index == b
  }

  lemma SessionCovers(ledger: seq<Verdict>, run: Run, from: int, to: int)
    requires Tallied(run) && to <= run.last
    requires from < run.start ==> Covered(ledger, from, run.start - 1)
    ensures Covered(ledger + run.log, from, to)
  {
    forall b | from <= b <= to ensures Logged(ledger + run.log, b) {
      if b < run.start {
        assert Logged(ledger, b);
        var v :| v in ledger && v.index == b;
        assert v in ledger + run.log;
      } else {
        assert run.log[b - run.start].index == b;
        assert run.log[b - run.start] in ledger + run.log;
      }
    }
  }

  lemma LedgerGrows(ledger: seq<Verdict>, log: seq<Verdict>, from: int, to: int)
    requires Covered(ledger, from, to)
    ensures Covered(ledger + log, from, to)
  {
    forall b | from <= b <= to ensures Logged(ledger + log, b) {
      assert Logged(ledger, b);
      var v :| v in ledger && v.index == b;
      assert v in ledger + log;
    }
  }

  /** Where the chain of runs that led to the resume value began: at the explicit start of the last run
      that had one and wrote the file, or else behind the initial value. */
  function Origin(initial: Option<int>, sessions: seq<Session>, wrote: seq<bool>): int
    requires |wrote| == |sessions|
  {
    if sessions == [] then StartBlock(None, initial)
    else
      var n := |sessions| - 1;
      if wrote[n] && sessions[n].start.Some? then sessions[n].start.value
      else Origin(initial, sessions[..n], wrote[..n])
  }

  /** Only a run that is offered a block at or behind its explicit start writes the file. */
  ghost predicate CouldWrite(s: Session) {
    exists p :: p in s.passes && (if s.start.Some? then Offers(p, s.start.value) else p.height.Reported?)
  }

  /** What one run does to the resume file. */
  method RunSession(s: Session, resume: Option<int>) returns (run: Run, resume': Option<int>, saved: bool)
    requires Acceptable(s.config)
    ensures run.start == StartBlock(s.start, resume) && Tallied(run)
    ensures forall v :: v in run.log ==> AnsweredIn(v, s.passes)
    ensures !saved ==> resume' == resume
    ensures saved ==> resume'.Some? && run.start - 1 <= resume'.value <= run.last && CouldWrite(s)
  {
    hide Answered, Tallied, AtLoopHead, PassesDone, AnsweredIn, RootsBacked, AllTruthful, AtHeights, Unmoved, StageHeights;
    var exit, published;
    run, resume', saved, exit, published := Validate(s.config, s.start, resume, s.passes);
    AllAnswered(run.log, s.passes);
  }

  lemma OriginStep(initial: Option<int>, sessions: seq<Session>, wrote: seq<bool>, saved: bool)
    requires |wrote| < |sessions|
    ensures var i := |wrote|;
            Origin(initial, sessions[..i + 1], wrote + [saved])
            == if saved && sessions[i].start.Some? then sessions[i].start.value
               else Origin(initial, sessions[..i], wrote)
  {
    var i := |wrote|;
    assert sessions[..i + 1][..i] == sessions[..i] && (wrote + [saved])[..i] == wrote;
  }

  /** Any sequence of runs over one resume file. Whatever fails or dies in between, every block from the
      origin up to the resume value was compared; `wrote` tells which runs wrote the file. */
  method RunSessions(initial: Option<int>, sessions: seq<Session>)
    returns (resume: Option<int>, wrote: seq<bool>, ledger: seq<Verdict>)
    requires forall s :: s in sessions ==> Acceptable(s.config)
    ensures |wrote| == |sessions|
    ensures resume.Some? ==> Origin(initial, sessions, wrote) <= resume.value + 1
                             && Covered(ledger, Origin(initial, sessions, wrote), resume.value)
    ensures forall v :: v in ledger ==> exists s :: s in sessions && AnsweredIn(v, s.passes)
    ensures resume.Some? <==> initial.Some? || true in wrote
    ensures true !in wrote ==> resume == initial
    ensures forall i :: 0 <= i < |wrote| && wrote[i] ==> CouldWrite(sessions[i])
  {
    hide Covered, Tallied, AnsweredIn, CouldWrite;
    resume, wrote, ledger := initial, [], [];
    var origin := StartBlock(None, initial);
    if initial.Some? {
      EmptyRange(ledger, origin, initial.value);
    }
    assert sessions[..0] == [];
    for i := 0 to |sessions|
      invariant |wrote| == i && origin == Origin(initial, sessions[..i], wrote)
      invariant resume.Some? ==> origin <= resume.value + 1 && Covered(ledger, origin, resume.value)
      invariant resume.None? ==> initial.None? && origin == 0
      invariant resume.Some? <==> initial.Some? || true in wrote
      invariant true !in wrote ==> resume == initial
      invariant forall j :: 0 <= j < i && wrote[j] ==> CouldWrite(sessions[j])
      invariant forall v :: v in ledger ==> exists s :: s in sessions && AnsweredIn(v, s.passes)
    {
      var s := sessions[i];
      var run, resume', saved := RunSession(s, resume);
      OriginStep(initial, sessions, wrote, saved);
      if saved {
        if s.start.Some? {
          origin := s.start.value;
        }
        SessionCovers(ledger, run, origin, resume'.value);
      } else if resume.Some? {
        LedgerGrows(ledger, run.log, origin, resume.value);
      }
      resume, wrote, ledger := resume', wrote + [saved], ledger + run.log;
    }
    assert sessions[..|sessions|] == sessions;
  }

  lemma EmptyRange(ledger: seq<Verdict>, from: int, to: int)
    requires to < from
    ensures Covered(ledger, from, to)
  {
  }

  lemma AllAnswered(log: seq<Verdict>, passes: seq<Answers>)
    requires Answered(log, passes)
    ensures forall v :: v in log ==> AnsweredIn(v, passes)
  {
  }
}
