/** The three recovery heights of a validation run and the roots retained for them. */
module CheckpointStages {
  import opened Wrappers

  type Root = string

  datatype Stage = Stage(name: string, height: int, verifiedRoot: Option<Root>)

  function Max(a: int, b: int): int {
    if a < b then b else a
  }

  /** Base, mid and latest height of the blocks validated from `start` to `last`. */
  function StageHeights(start: int, last: int): seq<int> {
    var base := Max(start, 0);
    if last < base then [] else [base, base + (last - base) / 2, last]
  }

  function StageNamed(name: string, height: int, roots: map<int, Root>): Stage {
    Stage(name, height, if height in roots then Some(roots[height]) else None)
  }

  function BuildStages(start: int, last: int, roots: map<int, Root>): seq<Stage> {
    var h := StageHeights(start, last);
    if h == [] then []
    else [StageNamed("base", h[0], roots), StageNamed("mid", h[1], roots), StageNamed("latest", h[2], roots)]
  }

  /** The roots held once the matched roots at the heights `done` were added. */
  ghost function Adding(retained: map<int, Root>, heights: seq<int>, done: seq<int>, matched: map<int, Root>): map<int, Root> {
    map h | h in heights && (h in retained || (h in done && h in matched)) ::
      if h in done && h in matched then matched[h] else retained[h]
  }

  lemma AddOne(retained: map<int, Root>, heights: seq<int>, done: seq<int>, matched: map<int, Root>, x: int)
    requires x in heights
    ensures Adding(retained, heights, done + [x], matched)
         == if x in matched then Adding(retained, heights, done, matched)[x := matched[x]] else Adding(retained, heights, done, matched)
  {
  }

  /** Keeps the roots at the current heights only and adds those that just matched. */
  method RetainStageRoots(retained: map<int, Root>, start: int, last: int, matched: map<int, Root>)
    returns (r: map<int, Root>)
    ensures r == Retained(retained, start, last, matched)
  {
    hide Adding, StageHeights, Retained;
    var heights := StageHeights(start, last);
    r := map h | h in retained && h in heights :: retained[h];
    AddNone(retained, heights, matched);
    for i := 0 to |heights|
      invariant r == Adding(retained, heights, heights[..i], matched)
    {
      AddOne(retained, heights, heights[..i], matched, heights[i]);
      assert heights[..i + 1] == heights[..i] + [heights[i]];
      if heights[i] in matched {
        r := r[heights[i] := matched[heights[i]]];
      }
    }
    assert heights[..|heights|] == heights;
    AddAll(retained, start, last, matched);
  }

  lemma AddNone(retained: map<int, Root>, heights: seq<int>, matched: map<int, Root>)
    ensures (map h | h in retained && h in heights :: retained[h]) == Adding(retained, heights, [], matched)
  {
  }

  lemma AddAll(retained: map<int, Root>, start: int, last: int, matched: map<int, Root>)
    ensures Adding(retained, StageHeights(start, last), StageHeights(start, last), matched)
         == Retained(retained, start, last, matched)
  {
    hide StageHeights;
  }

  /** What is retained: at a current height, the root that just matched, or else the one held before. */
  function Retained(retained: map<int, Root>, start: int, last: int, matched: map<int, Root>): map<int, Root> {
    map h | h in StageHeights(start, last) && (h in matched || h in retained) ::
      if h in matched then matched[h] else retained[h]
  }

  /** `roots` are roots of blocks whose local and reference roots agreed, at current heights only. */
  ghost predicate Sound(roots: map<int, Root>, start: int, last: int, agreed: map<int, Root>) {
    forall h :: h in roots ==> h in StageHeights(start, last) && h in agreed && roots[h] == agreed[h]
  }

  /** Retaining keeps at most three roots, each of an agreed block, and keeps the base root for good. */
  lemma RetainedIsSound(roots: map<int, Root>, start: int, before: int, last: int, agreed: map<int, Root>, matched: map<int, Root>)
    requires Sound(roots, start, before, agreed) && before <= last
    requires forall h :: h in matched ==> before < h
    requires forall h :: h in agreed ==> h <= before
    ensures Sound(Retained(roots, start, last, matched), start, last, agreed + matched)
    ensures |Retained(roots, start, last, matched)| <= 3
    ensures Max(start, 0) in roots ==>
              var r := Retained(roots, start, last, matched);
              Max(start, 0) in r && r[Max(start, 0)] == roots[Max(start, 0)]
  {
    var r, base := Retained(roots, start, last, matched), Max(start, 0);
    AtMostThree(r.Keys, base, base + (last - base) / 2, last);
  }

  /** The base and the latest height are retained whenever they agreed. */
  ghost predicate EndsKept(roots: map<int, Root>, start: int, last: int, agreed: map<int, Root>) {
    (Max(start, 0) in agreed ==> Max(start, 0) in roots) && (0 <= last && last in agreed ==> last in roots)
  }

  ghost predicate Kept(roots: map<int, Root>, start: int, last: int, agreed: map<int, Root>) {
    Sound(roots, start, last, agreed) && |roots| <= 3 && EndsKept(roots, start, last, agreed)
  }

  ghost predicate Within(roots: map<int, Root>, low: int, high: int) {
    forall h :: h in roots ==> low <= h < high
  }

  lemma RetainingKeepsEnds(roots: map<int, Root>, start: int, before: int, last: int, agreed: map<int, Root>, matched: map<int, Root>)
    requires EndsKept(roots, start, before, agreed) && start <= before + 1 <= last + 1 && 0 <= last
    requires Within(agreed, start, before + 1) && Within(matched, before + 1, last + 1)
    ensures EndsKept(Retained(roots, start, last, matched), start, last, agreed + matched)
  {
    var r := Retained(roots, start, last, matched);
    assert forall h :: h in StageHeights(start, last) && (h in matched || h in roots) ==> h in r;
  }

  /** The validator retains only once a block of non-negative height was compared; either way the roots stay kept. */
  lemma RetainingKeeps(roots: map<int, Root>, start: int, before: int, last: int, agreed: map<int, Root>, matched: map<int, Root>)
    requires Kept(roots, start, before, agreed) && start <= before + 1 <= last + 1
    requires Within(agreed, start, before + 1) && Within(matched, before + 1, last + 1)
    ensures 0 <= last ==> Kept(Retained(roots, start, last, matched), start, last, agreed + matched)
    ensures last < 0 ==> Kept(roots, start, last, agreed + matched)
  {
    hide Retained;
    if 0 <= last {
      RetainedIsSound(roots, start, before, last, agreed, matched);
      RetainingKeepsEnds(roots, start, before, last, agreed, matched);
    }
  }

  lemma AtMostThree(s: set<int>, a: int, b: int, c: int)
    requires s <= {a, b, c}
    ensures |s| <= 3
  {
    assert {a, b, c} == s + ({a, b, c} - s);
  }

  /** At most three roots are held, each of a block whose local and reference roots agreed. */
  ghost predicate Backed(roots: map<int, Root>, agreed: map<int, Root>) {
    |roots| <= 3 && forall h :: h in roots ==> h in agreed && roots[h] == agreed[h]
  }

  /** A stage is marked as verified exactly if a root is held at its height, and then with a root on which
      both sides agreed; roots at current heights are all shown. */
  lemma VerifiedStagesAgreed(start: int, last: int, roots: map<int, Root>, agreed: map<int, Root>)
    requires Backed(roots, agreed)
    ensures forall s :: s in BuildStages(start, last, roots) ==> (s.verifiedRoot.Some? <==> s.height in roots)
    ensures forall s :: s in BuildStages(start, last, roots) && s.verifiedRoot.Some? ==>
              s.height in agreed && s.verifiedRoot.value == agreed[s.height]
    ensures forall h :: h in roots && h in StageHeights(start, last) ==>
              exists s :: s in BuildStages(start, last, roots) && s.height == h && s.verifiedRoot == Some(roots[h])
  {
    var stages, heights := BuildStages(start, last, roots), StageHeights(start, last);
    forall h | h in roots && h in heights
      ensures exists s :: s in stages && s.height == h && s.verifiedRoot == Some(roots[h])
    {
      var i :| 0 <= i < |heights| && heights[i] == h;
      assert stages[i].height == h && stages[i] in stages;
    }
  }

  /** Once a block at or behind the base is validated there are three stages: the base at the start, or at 0 if
      that is negative, the latest at the last block, and the mid halfway, rounded down. */
  ghost predicate StagesFor(stages: seq<Stage>, start: int, last: int) {
    var base := if start < 0 then 0 else start;
    if last < base then stages == []
    else
      && |stages| == 3
      && stages[0].name == "base" && stages[0].height == base
      && stages[1].name == "mid" && 0 <= (last - stages[1].height) - (stages[1].height - base) <= 1
      && stages[2].name == "latest" && stages[2].height == last
  }

  lemma StagesAre(start: int, last: int, roots: map<int, Root>)
    ensures StagesFor(BuildStages(start, last, roots), start, last)
  {
  }

  /** Of kept roots, base and latest are marked as verified exactly if they agreed. */
  lemma EndsAreVerified(start: int, last: int, roots: map<int, Root>, agreed: map<int, Root>)
    requires Kept(roots, start, last, agreed)
    ensures forall st :: st in BuildStages(start, last, roots) && st.name != "mid" ==>
              (st.verifiedRoot.Some? <==> st.height in agreed)
  {
  }

  ghost predicate AtHeights(roots: map<int, Root>, heights: seq<int>) {
    forall h :: h in roots ==> h in heights
  }

  /** The base never moves; a held mid height stays only for one more block, and a held latest height can
      only have become mid. */
  predicate Unmoved(roots: map<int, Root>, start: int, before: int, last: int) {
    var base := Max(start, 0);
    var mid := base + (before - base) / 2;
    before == last
    || ((mid in roots ==> mid == base || (last == before + 1 && (before - base) % 2 == 0))
        && (before in roots ==> before == base || (last - base) / 2 == before - base))
  }

  /** Roots held for the heights at `before` and seen at `last`, before they are retained again, are all at
      current heights exactly if the former heights have not moved. */
  lemma HeldAreCurrentIff(roots: map<int, Root>, start: int, before: int, last: int)
    requires AtHeights(roots, StageHeights(start, before)) && before <= last
    ensures AtHeights(roots, StageHeights(start, last)) <==> Unmoved(roots, start, before, last)
  {
    var base := Max(start, 0);
    var mid := base + (before - base) / 2;
    assert forall h :: h in roots ==> base <= before && (h == base || h == mid || h == before);
    assert base <= last ==> StageHeights(start, last) == [base, base + (last - base) / 2, last];
  }
}
