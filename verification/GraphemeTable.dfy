/** The break-property table as sorted range runs: building it, looking a scalar
    up in it, and counting text elements through it.

    A table gives a class to every code point. Its runs leave out class `Other`.
    `Represents` says what runs mean; `RunsAreCanonical` says that a table has one
    representation only, and `StrLen` ties the whole pipeline to the boundary rules.
 */
module GraphemeTable {
  import opened GraphemeRules
  import opened GraphemeScanner

  datatype Run = Run(start: nat, end: nat, cls: Class)

  predicate Covers(r: Run, cp: int) {
    r.start <= cp <= r.end
  }

  ghost predicate SortedDisjoint(runs: seq<Run>) {
    && (forall k :: 0 <= k < |runs| ==> runs[k].start <= runs[k].end)
    && (forall k, l :: 0 <= k < l < |runs| ==> runs[k].end < runs[l].start)
  }

  /** Runs that touch differ in class, so no run can be extended. */
  ghost predicate Maximal(runs: seq<Run>) {
    forall k, l :: 0 <= k < l < |runs| && runs[k].end + 1 == runs[l].start ==> runs[k].cls != runs[l].cls
  }

  ghost predicate Agrees(r: Run, table: seq<Class>) {
    && r.end < |table|
    && r.cls != Other
    && forall cp :: Covers(r, cp) ==> table[cp] == r.cls
  }

  ghost predicate Covered(runs: seq<Run>, cp: int) {
    exists k :: 0 <= k < |runs| && Covers(runs[k], cp)
  }

  /** `runs` is the table of exactly the classes in `table`, `Other` left out. */
  ghost predicate Represents(runs: seq<Run>, table: seq<Class>) {
    && SortedDisjoint(runs)
    && Maximal(runs)
    && (forall k :: 0 <= k < |runs| ==> Agrees(runs[k], table))
    && (forall cp :: 0 <= cp < |table| && table[cp] != Other ==> Covered(runs, cp))
  }

  /** The state of the builder inside a run that started at `runStart`. */
  ghost predicate Building(runs: seq<Run>, table: seq<Class>, runStart: int, runCls: Class, cp: int) {
    && 0 <= runStart < cp <= |table|
    && Represents(runs, table[..runStart])
    && (forall i :: runStart <= i < cp ==> table[i] == runCls)
    && (0 < runStart ==> table[runStart - 1] != runCls)
  }

  /** The runs with the current run closed, which `Other` is not. */
  function CloseRun(runs: seq<Run>, runStart: nat, cp: nat, runCls: Class): seq<Run>
    requires 0 < cp
  {
    if runCls != Other then runs + [Run(runStart, cp - 1, runCls)] else runs
  }

  lemma CloseRunRepresents(runs: seq<Run>, table: seq<Class>, runStart: nat, runCls: Class, cp: nat)
    requires Building(runs, table, runStart, runCls, cp)
    ensures Represents(CloseRun(runs, runStart, cp, runCls), table[..cp])
  {
    var next := CloseRun(runs, runStart, cp, runCls);
    forall k | 0 <= k < |runs| ensures Agrees(runs[k], table[..cp]) {
      assert Agrees(runs[k], table[..runStart]);
      forall i | Covers(runs[k], i) ensures table[..cp][i] == runs[k].cls {
        assert table[..runStart][i] == runs[k].cls;
      }
    }
    forall i | 0 <= i < cp && table[..cp][i] != Other ensures Covered(next, i) {
      if i < runStart {
        assert table[..runStart][i] != Other;
        var k :| 0 <= k < |runs| && Covers(runs[k], i);
        assert Covers(next[k], i);
      } else {
        assert Covers(next[|runs|], i);
      }
    }
    forall k | 0 <= k < |runs| && runs[k].end + 1 == runStart ensures runs[k].cls != runCls {
      assert Agrees(runs[k], table[..runStart]) && Covers(runs[k], runStart - 1);
    }
  }

  lemma NextCodePoint(runs: seq<Run>, table: seq<Class>, runStart: nat, runCls: Class, cp: nat)
    requires Building(runs, table, runStart, runCls, cp) && cp < |table|
    ensures table[cp] == runCls ==> Building(runs, table, runStart, runCls, cp + 1)
    ensures table[cp] != runCls ==> Building(CloseRun(runs, runStart, cp, runCls), table, cp, table[cp], cp + 1)
  {
    if table[cp] != runCls {
      CloseRunRepresents(runs, table, runStart, runCls, cp);
    }
  }

  lemma FirstCodePoint(table: seq<Class>)
    requires table != []
    ensures Building([], table, 0, table[0], 1)
  {
  }

  /** The generator's compression of the probed classes into runs. */
  method BuildRuns(probed: seq<Class>) returns (runs: seq<Run>)
    requires probed != []
    ensures Represents(runs, probed)
  {
    hide Building, Represents;
    runs := [];
    var runStart: nat, runCls := 0, probed[0];
    FirstCodePoint(probed);
    var cp := 1;
    while cp < |probed|
      invariant 0 < cp <= |probed| && Building(runs, probed, runStart, runCls, cp)
    {
      NextCodePoint(runs, probed, runStart, runCls, cp);
      if probed[cp] != runCls {
        if runCls != Other {
          runs := runs + [Run(runStart, cp - 1, runCls)];
        }
        runStart := cp;
        runCls := probed[cp];
      }
      cp := cp + 1;
    }
    CloseRunRepresents(runs, probed, runStart, runCls, cp);
    if runCls != Other {
      runs := runs + [Run(runStart, |probed| - 1, runCls)];
    }
    assert probed[..cp] == probed;
  }

  // ----- the representation is unique -----

  lemma LastRunReaches(a: seq<Run>, b: seq<Run>, table: seq<Class>)
    requires Represents(a, table) && Represents(b, table) && a != []
    ensures b != [] && a[|a| - 1].end <= b[|b| - 1].end
  {
    var r := a[|a| - 1];
    assert Covers(r, r.end) && Agrees(r, table);
    assert Covered(b, r.end);
    var k :| 0 <= k < |b| && Covers(b[k], r.end);
    assert k == |b| - 1 || b[k].end < b[|b| - 1].start <= b[|b| - 1].end;
  }

  lemma LastRunStarts(a: seq<Run>, b: seq<Run>, table: seq<Class>)
    requires Represents(a, table) && Represents(b, table) && a != [] && b != []
    requires a[|a| - 1].end == b[|b| - 1].end && a[|a| - 1].cls == b[|b| - 1].cls
    ensures b[|b| - 1].start <= a[|a| - 1].start
  {
    var r, q := a[|a| - 1], b[|b| - 1];
    if r.start < q.start {
      var cp := q.start - 1;
      assert Covers(r, cp) && Agrees(r, table);
    }
  }

  lemma WithoutLastRun(a: seq<Run>, table: seq<Class>)
    requires Represents(a, table) && a != []
    ensures Represents(a[..|a| - 1], table[..a[|a| - 1].start])
  {
    var n, r := |a| - 1, a[|a| - 1];
    var t := table[..r.start];
    forall k | 0 <= k < n ensures Agrees(a[..n][k], t) {
      assert Agrees(a[k], table) && a[k].end < r.start;
      forall i | Covers(a[k], i) ensures t[i] == a[k].cls {
        assert table[i] == a[k].cls;
      }
    }
    forall i | 0 <= i < |t| && t[i] != Other ensures Covered(a[..n], i) {
      assert table[i] != Other;
      var k :| 0 <= k < |a| && Covers(a[k], i);
      assert k < n && Covers(a[..n][k], i);
    }
  }

  /** A table has exactly one representation as runs. */
  lemma {:induction false} RunsAreCanonical(a: seq<Run>, b: seq<Run>, table: seq<Class>)
    requires Represents(a, table) && Represents(b, table)
    ensures a == b
    decreases |a|
  {
    if a == [] {
      if b != [] {
        LastRunReaches(b, a, table);
      }
    } else {
      LastRunReaches(a, b, table);
      LastRunReaches(b, a, table);
      var r, q := a[|a| - 1], b[|b| - 1];
      assert r.cls == q.cls by {
        assert Agrees(r, table) && Agrees(q, table) && Covers(r, r.end) && Covers(q, r.end);
      }
      LastRunStarts(a, b, table);
      LastRunStarts(b, a, table);
      WithoutLastRun(a, table);
      WithoutLastRun(b, table);
      RunsAreCanonical(a[..|a| - 1], b[..|b| - 1], table[..r.start]);
      assert a == a[..|a| - 1] + [r] && b == b[..|b| - 1] + [q];
    }
  }

  /** Equal runs come from equal tables: nothing is lost. */
  lemma RunsAreLossless(runs: seq<Run>, s: seq<Class>, t: seq<Class>)
    requires |s| == |t| && Represents(runs, s) && Represents(runs, t)
    ensures s == t
  {
    forall cp | 0 <= cp < |s| ensures s[cp] == t[cp] {
      if Covered(runs, cp) {
        var k :| 0 <= k < |runs| && Covers(runs[k], cp);
        assert Agrees(runs[k], s) && Agrees(runs[k], t);
      }
    }
  }

  // ----- lookup -----

  /** The first run that does not end before `cp`, by binary search. */
  method PartitionPoint(runs: seq<Run>, cp: nat) returns (idx: nat)
    requires SortedDisjoint(runs)
    ensures idx <= |runs|
    ensures forall k :: 0 <= k < idx ==> runs[k].end < cp
    ensures forall k :: idx <= k < |runs| ==> cp <= runs[k].end
  {
    var lo, hi := 0, |runs|;
    while lo < hi
      invariant 0 <= lo <= hi <= |runs|
      invariant forall k :: 0 <= k < lo ==> runs[k].end < cp
      invariant forall k :: hi <= k < |runs| ==> cp <= runs[k].end
    {
      var mid := (lo + hi) / 2;
      if runs[mid].end < cp {
        lo := mid + 1;
      } else {
        hi := mid;
      }
    }
    idx := lo;
  }

  /** Lookup in the runs returns the class that the table gives. */
  method BreakClass(runs: seq<Run>, cp: nat, ghost table: seq<Class>) returns (c: Class)
    requires Represents(runs, table) && cp < |table|
    ensures c == table[cp]
  {
    var idx := PartitionPoint(runs, cp);
    if idx < |runs| && runs[idx].start <= cp {
      assert Agrees(runs[idx], table) && Covers(runs[idx], cp);
      c := runs[idx].cls;
    } else {
      assert !Covered(runs, cp);
      c := Other;
    }
  }

  ghost function ClassesIn(table: seq<Class>, scalars: seq<nat>): (t: Text)
    requires forall i :: 0 <= i < |scalars| ==> scalars[i] < |table|
    ensures |t| == |scalars| && forall i :: 0 <= i < |t| ==> t[i] == table[scalars[i]]
  {
    seq(|scalars|, i requires 0 <= i < |scalars| => table[scalars[i]])
  }

  /** `StdLib.strLen`: lookup in the emitted runs followed by the scan counts the elements of the rules. */
  method StrLen(scalars: seq<nat>, runs: seq<Run>, ghost table: seq<Class>) returns (count: nat)
    requires Represents(runs, table)
    requires forall i :: 0 <= i < |scalars| ==> scalars[i] < |table|
    ensures count == TextElements(ClassesIn(table, scalars))
  {
    var classes: Text := [];
    for i := 0 to |scalars|
      invariant |classes| == i
      invariant forall k :: 0 <= k < i ==> classes[k] == table[scalars[k]]
    {
      var c := BreakClass(runs, scalars[i], table);
      classes := classes + [c];
    }
    count := MachineCount(classes);
    assert classes == ClassesIn(table, scalars);
  }
}
