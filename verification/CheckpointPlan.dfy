/** Planning and executing full-state checkpoints for the stages of a validation status.

    The contents of the checkpoint directory are an input: every path that exists
    is either a usable checkpoint or not.
 */
module CheckpointPlan {
  import opened Wrappers

  const MINIMUM_CHECKPOINTS: nat := 3
  const REQUIRED_STAGES: seq<string> := ["base", "mid", "latest"]

  datatype Path = AtHeight(height: int) | Named(name: string)

  /** The existing paths, and whether each is usable. */
  type Directory = map<Path, bool>

  datatype Stage = Stage(name: string, height: int)

  datatype Status = Status(
    blockCount: Option<int>,
    stateHeight: Option<int>,
    validatedHeight: Option<int>,
    lastValidated: Option<int>,
    stages: seq<Stage>)

  datatype Action = Skip | Blocked | Create(height: int) | Defer

  datatype Readiness = Ready | Waiting | Stopped

  datatype Plan = Plan(status: Readiness, actions: seq<Action>, usable: nat, projected: nat)

  function Usable(d: Directory): set<Path> {
    set p | p in d && d[p]
  }

  /** Only the current durable, validated and reference-checked height can be captured. */
  predicate HeightReady(s: Status, height: int) {
    && s.blockCount == Some(height + 1)
    && s.stateHeight == Some(height)
    && s.validatedHeight == Some(height)
    && s.lastValidated.Some? && height <= s.lastValidated.value
  }

  predicate Complete(stages: seq<Stage>) {
    && stages != []
    && (forall name :: name in REQUIRED_STAGES ==> exists i :: 0 <= i < |stages| && stages[i].name == name)
    && (forall i :: 0 <= i < |stages| ==> stages[i].name in REQUIRED_STAGES)
  }

  /** Complete stages are named base, mid and latest, each at least once, and nothing else. */
  lemma CompleteIff(stages: seq<Stage>)
    ensures Complete(stages) <==> NamesOf(stages) == {"base", "mid", "latest"}
  {
    if Complete(stages) {
      forall name | name in {"base", "mid", "latest"} ensures name in NamesOf(stages) {
        assert name in REQUIRED_STAGES;
        var i :| 0 <= i < |stages| && stages[i].name == name;
        assert stages[i] in stages;
      }
    }
    if NamesOf(stages) == {"base", "mid", "latest"} {
      forall name | name in REQUIRED_STAGES ensures exists i :: 0 <= i < |stages| && stages[i].name == name {
        assert name in NamesOf(stages);
        var st :| st in stages && st.name == name;
      }
      forall i | 0 <= i < |stages| ensures stages[i].name in REQUIRED_STAGES {
        assert stages[i] in stages && stages[i].name in NamesOf(stages);
      }
    }
  }

  ghost function NamesOf(stages: seq<Stage>): set<string> {
    set st | st in stages :: st.name
  }

  /** What the plan does for one stage, given the heights of the stages before it. */
  function ActionFor(s: Status, d: Directory, height: int, earlier: set<int>): Action {
    var path := AtHeight(height);
    if path in d then (if d[path] then Skip else Blocked)
    else if !HeightReady(s, height) then Defer
    else if height in earlier then Skip
    else Create(height)
  }

  function Heights(stages: seq<Stage>): set<int> {
    set st | st in stages :: st.height
  }

  ghost predicate Planned(s: Status, d: Directory, actions: seq<Action>, n: nat) {
    |actions| == n <= |s.stages|
    && forall i :: 0 <= i < n ==> actions[i] == ActionFor(s, d, s.stages[i].height, Heights(s.stages[..i]))
  }

  ghost function Creates(actions: seq<Action>): set<Path> {
    set a | a in actions && a.Create? :: AtHeight(a.height)
  }

  lemma CreatesAppend(actions: seq<Action>, a: Action)
    ensures Creates(actions + [a]) == Creates(actions) + if a.Create? then {AtHeight(a.height)} else {}
  {
    forall p ensures p in Creates(actions + [a]) <==> p in Creates(actions) || (a.Create? && p == AtHeight(a.height)) {
      if p in Creates(actions) {
        var b :| b in actions && b.Create? && p == AtHeight(b.height);
        assert b in actions + [a];
      }
      if a.Create? {
        assert a in actions + [a];
      }
    }
  }

  lemma HeightsAppend(stages: seq<Stage>, st: Stage)
    ensures Heights(stages + [st]) == Heights(stages) + {st.height}
  {
    forall h ensures h in Heights(stages + [st]) <==> h in Heights(stages) || h == st.height {
      if h in Heights(stages) {
        var x :| x in stages && x.height == h;
        assert x in stages + [st];
      }
      assert st in stages + [st];
    }
  }

  lemma PlannedAppend(s: Status, d: Directory, actions: seq<Action>, n: nat, a: Action)
    requires Planned(s, d, actions, n) && n < |s.stages|
    ensures Planned(s, d, actions + [a], n + 1) <==> a == ActionFor(s, d, s.stages[n].height, Heights(s.stages[..n]))
  {
    hide ActionFor, Heights;
    if Planned(s, d, actions + [a], n + 1) {
      assert (actions + [a])[n] == a;
    }
  }

  lemma Nothing(s: Status, d: Directory)
    ensures Planned(s, d, [], 0) && Creates([]) == {} && Usable(d) + Creates([]) == Usable(d) && Heights([]) == {}
    ensures !Complete([])
  {
  }

  method BuildPlan(s: Status, d: Directory) returns (plan: Plan)
    ensures plan.usable == |set p | p in d && d[p]|
    ensures plan.actions == [] || Planned(s, d, plan.actions, |s.stages|)
    ensures plan.actions != [] <==> Complete(s.stages)
    ensures plan.projected == |Usable(d) + Creates(plan.actions)|
    ensures plan.status == Ready <==>
              Complete(s.stages) && Blocked !in plan.actions && Defer !in plan.actions && 3 <= plan.usable
    ensures Complete(s.stages) ==> (plan.status == Stopped <==> Blocked in plan.actions)
    ensures !Complete(s.stages) ==> plan.status == if s.stages == [] then Waiting else Stopped
  {
    hide Creates, Heights, Complete, HeightReady, Planned;
    var usable := Usable(d);
    Nothing(s, d);
    if s.stages == [] {
      return Plan(Waiting, [], |usable|, |usable|);
    }
    if !Complete(s.stages) {
      return Plan(Stopped, [], |usable|, |usable|);
    }
    var actions: seq<Action> := [];
    var blocked, deferred := false, false;
    var planned: set<Path> := {};
    for i := 0 to |s.stages|
      invariant |actions| == i && Planned(s, d, actions, i)
      invariant planned == Creates(actions)
      invariant blocked <==> Blocked in actions
      invariant deferred <==> Defer in actions
      invariant forall h :: AtHeight(h) in planned <==> h in Heights(s.stages[..i]) && AtHeight(h) !in d && HeightReady(s, h)
    {
      var height := s.stages[i].height;
      var path := AtHeight(height);
      assert s.stages[..i + 1] == s.stages[..i] + [s.stages[i]];
      HeightsAppend(s.stages[..i], s.stages[i]);
      var action;
      if path in d && d[path] {
        action := Skip;
      } else if path in d {
        action := Blocked;
        blocked := true;
      } else if path in planned {
        action := Skip;
      } else if HeightReady(s, height) {
        action := Create(height);
        planned := planned + {path};
      } else {
        action := Defer;
        deferred := true;
      }
      CreatesAppend(actions, action);
      PlannedAppend(s, d, actions, i, action);
      actions := actions + [action];
    }
    var status := if blocked then Stopped else if deferred || |usable| < MINIMUM_CHECKPOINTS then Waiting else Ready;
    return Plan(status, actions, |usable|, |usable + planned|);
  }

  // ----- what a plan does -----

  /** Which stage is created, deferred, blocked or skipped: a checkpoint is created for a stage whose path does not
      exist, whose height is the durable, the validated and a reference-checked one, and which no earlier stage has. */
  lemma ActionsAre(s: Status, d: Directory, actions: seq<Action>, i: nat)
    requires Planned(s, d, actions, |s.stages|) && i < |actions|
    ensures var h := s.stages[i].height;
            var current := s.blockCount == Some(h + 1) && s.stateHeight == Some(h) && s.validatedHeight == Some(h)
                           && exists last :: s.lastValidated == Some(last) && h <= last;
            var again := exists j :: 0 <= j < i && s.stages[j].height == h;
            && (actions[i] == Blocked <==> AtHeight(h) in d && !d[AtHeight(h)])
            && (actions[i].Create? <==> AtHeight(h) !in d && current && !again)
            && (actions[i].Create? ==> actions[i].height == h)
            && (actions[i] == Defer <==> AtHeight(h) !in d && !current)
  {
    var h := s.stages[i].height;
    if h in Heights(s.stages[..i]) {
      var st :| st in s.stages[..i] && st.height == h;
      var j :| 0 <= j < i && s.stages[..i][j] == st;
      assert s.stages[j].height == h;
    }
    forall j | 0 <= j < i && s.stages[j].height == h ensures h in Heights(s.stages[..i]) {
      EarlierHeight(s.stages, j, i);
    }
  }

  /** At most one checkpoint is created, at a path that does not exist, at the current height. */
  lemma CreatesAtMostOne(s: Status, d: Directory, actions: seq<Action>, i: nat, j: nat)
    requires Planned(s, d, actions, |s.stages|) && i < |actions| && j < |actions|
    requires actions[i].Create? && actions[j].Create?
    ensures i == j && HeightReady(s, actions[i].height) && AtHeight(actions[i].height) !in d
  {
    hide HeightReady;
    OneReadyHeight(s, s.stages[i].height, s.stages[j].height);
    EarlierHeight(s.stages, i, j);
    EarlierHeight(s.stages, j, i);
  }

  lemma EarlierHeight(stages: seq<Stage>, i: nat, j: nat)
    requires i < |stages| && j < |stages|
    ensures i < j ==> stages[i].height in Heights(stages[..j])
  {
    if i < j {
      assert stages[i] in stages[..j];
    }
  }

  lemma OneReadyHeight(s: Status, a: int, b: int)
    requires HeightReady(s, a) && HeightReady(s, b)
    ensures a == b
  {
  }

  /** The projected count is the current count, or one more exactly if the plan creates a checkpoint. */
  lemma ProjectedCount(s: Status, d: Directory, actions: seq<Action>)
    requires Planned(s, d, actions, |s.stages|)
    ensures |Usable(d) + Creates(actions)| == |Usable(d)| + if exists a :: a in actions && a.Create? then 1 else 0
  {
    hide HeightReady, Planned;
    if exists a :: a in actions && a.Create? {
      var a :| a in actions && a.Create?;
      var i :| 0 <= i < |actions| && actions[i] == a;
      CreatesAtMostOne(s, d, actions, i, i);
      forall p ensures p in Creates(actions) <==> p == AtHeight(a.height) {
        if p in Creates(actions) {
          var b :| b in actions && b.Create? && p == AtHeight(b.height);
          var j :| 0 <= j < |actions| && actions[j] == b;
          CreatesAtMostOne(s, d, actions, i, j);
        }
      }
      assert Creates(actions) == {AtHeight(a.height)};
      assert AtHeight(a.height) !in Usable(d);
    } else {
      assert Creates(actions) == {};
      assert Usable(d) + Creates(actions) == Usable(d);
    }
  }

  // ----- execution -----

  datatype Outcome = Outcome(plan: Plan, executed: nat, skipped: nat, dryRun: bool)

  ghost function CreateCount(actions: seq<Action>): nat {
    if actions == [] then 0
    else CreateCount(actions[..|actions| - 1]) + if actions[|actions| - 1].Create? then 1 else 0
  }

  lemma {:induction false} SomeCreate(actions: seq<Action>)
    ensures 0 < CreateCount(actions) <==> exists a :: a in actions && a.Create?
  {
    if actions != [] {
      var n := |actions| - 1;
      SomeCreate(actions[..n]);
      assert actions == actions[..n] + [actions[n]];
    }
  }

  /** Carries out a plan. `works` tells for which heights creation and the restore probe succeed; the
      first that fails ends the execution. `after` is the directory as it is found afterwards. */
  method ExecutePlan(plan: Plan, execute: bool, works: int -> bool, after: Directory) returns (r: Result<Outcome>)
    ensures r.Failure? <==> execute && exists a :: a in plan.actions && a.Create? && !works(a.height)
    ensures r.Success? ==> r.value.plan.actions == plan.actions && r.value.dryRun == !execute
    ensures r.Success? ==> r.value.executed == if execute then CreateCount(plan.actions) else 0
    ensures r.Success? ==> r.value.skipped == multiset(plan.actions)[Skip]
    ensures r.Success? && !execute ==> r.value.plan == plan
    ensures r.Success? && execute ==> r.value.plan.usable == r.value.plan.projected == |Usable(after)|
    ensures r.Success? && execute ==>
              (r.value.plan.status == Ready <==>
                 plan.status == Ready
                 || (plan.status == Waiting && (exists a :: a in plan.actions && a.Create?)
                     && MINIMUM_CHECKPOINTS <= |Usable(after)| && Blocked !in plan.actions && Defer !in plan.actions))
    ensures r.Success? && execute && r.value.plan.status != Ready ==> r.value.plan.status == plan.status
  {
    var executed, skipped := 0, 0;
    for i := 0 to |plan.actions|
      invariant executed == if execute then CreateCount(plan.actions[..i]) else 0
      invariant skipped == multiset(plan.actions[..i])[Skip]
      invariant execute ==> forall a :: a in plan.actions[..i] && a.Create? ==> works(a.height)
    {
      var a := plan.actions[i];
      assert plan.actions[..i + 1] == plan.actions[..i] + [a];
      assert plan.actions[..i + 1][..i] == plan.actions[..i];
      if a.Skip? {
        skipped := skipped + 1;
      } else if a.Create? && execute {
        if !works(a.height) {
          return Failure;
        }
        executed := executed + 1;
      }
    }
    assert plan.actions[..|plan.actions|] == plan.actions;
    SomeCreate(plan.actions);
    var result := plan;
    if execute {
      var usable := |Usable(after)|;
      result := plan.(usable := usable, projected := usable);
      if plan.status == Waiting && 0 < executed && MINIMUM_CHECKPOINTS <= usable
         && Blocked !in plan.actions && Defer !in plan.actions {
        result := result.(status := Ready);
      }
    }
    return Success(Outcome(result, executed, skipped, !execute));
  }

  /** Planning and executing once: whatever is reported ready has no blocked or deferred stage, and three
      checkpoints were usable when it was planned or are when it was executed. The reported count is at least
      three unless the directory lost checkpoints in between. */
  method Maintain(s: Status, d: Directory, execute: bool, works: int -> bool, after: Directory) returns (r: Result<Outcome>)
    ensures r.Success? && r.value.plan.status == Ready ==>
              Complete(s.stages) && Blocked !in r.value.plan.actions && Defer !in r.value.plan.actions
    ensures r.Success? && r.value.plan.status == Ready ==>
              MINIMUM_CHECKPOINTS <= |Usable(d)| || (execute && MINIMUM_CHECKPOINTS <= |Usable(after)|)
    ensures r.Success? && r.value.plan.status == Ready ==>
              (MINIMUM_CHECKPOINTS <= r.value.plan.usable <==> !execute || MINIMUM_CHECKPOINTS <= |Usable(after)|)
    ensures r.Success? && r.value.plan.status == Ready && Usable(d) <= Usable(after) ==>
              MINIMUM_CHECKPOINTS <= r.value.plan.usable
  {
    var plan := BuildPlan(s, d);
    r := ExecutePlan(plan, execute, works, after);
    if Usable(d) <= Usable(after) {
      SubsetSize(Usable(d), Usable(after));
    }
  }

  lemma SubsetSize<T>(a: set<T>, b: set<T>)
    requires a <= b
    ensures |a| <= |b|
  {
    assert b == a + (b - a);
  }
}
