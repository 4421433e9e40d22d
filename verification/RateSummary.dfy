/** The two summaries of height samples: between adjacent samples, and without shortening plateaus. */
module RateSummary {
  import opened Wrappers

  /** A sample that reads as time and height, one that does not, and an entry that is no sample at all. */
  datatype Sample = Reading(time: real, height: int) | Malformed | Foreign

  datatype Interval = Interval(fromHeight: int, toHeight: int, elapsed: real) {
    function Delta(): int { toHeight - fromHeight }

    function Rate(): (r: real)
      requires elapsed > 0.0
      ensures r * elapsed == Delta() as real
    {
      Delta() as real / elapsed
    }
  }

  /** The advance from `from` to `to`, if time and height both grow. */
  function Advance(from: Sample, to: Sample): seq<Interval>
    requires from.Reading? && to.Reading?
  {
    var i := Interval(from.height, to.height, to.time - from.time);
    if i.elapsed > 0.0 && i.Delta() > 0 then [i] else []
  }

  // ----- the two summarizers -----

  /** Advances between each sample and its predecessor. */
  function Adjacent(samples: seq<Sample>, previous: Option<Sample>): seq<Interval> {
    if samples == [] then []
    else
      var s := samples[0];
      if s.Foreign? then Adjacent(samples[1..], previous)
      else if previous.Some? && previous.value.Reading? && s.Reading?
      then Advance(previous.value, s) + Adjacent(samples[1..], Some(s))
      else Adjacent(samples[1..], Some(s))
  }

  /** Advances since the sample at which the current height was first seen. */
  function Plateau(samples: seq<Sample>, start: Option<Sample>): seq<Interval>
    requires start.Some? ==> start.value.Reading?
  {
    if samples == [] then []
    else
      var s := samples[0];
      match s
      case Foreign => Plateau(samples[1..], start)
      case Malformed => Plateau(samples[1..], None)
      case Reading(_, height) =>
        if start.None? then Plateau(samples[1..], Some(s))
        else if height == start.value.height then Plateau(samples[1..], start)
        else Advance(start.value, s) + Plateau(samples[1..], Some(s))
  }

  method AdjacentIntervals(samples: seq<Sample>) returns (intervals: seq<Interval>)
    ensures intervals == Adjacent(samples, None)
  {
    intervals := [];
    var previous := None;
    for i := 0 to |samples|
      invariant intervals + Adjacent(samples[i..], previous) == Adjacent(samples, None)
    {
      var s := samples[i];
      assert samples[i..][0] == s && samples[i..][1..] == samples[i + 1..];
      if s.Foreign? {
        continue;
      }
      if previous.Some? && previous.value.Reading? && s.Reading? {
        intervals := intervals + Advance(previous.value, s);
      }
      previous := Some(s);
    }
  }

  method PlateauIntervals(samples: seq<Sample>) returns (intervals: seq<Interval>)
    ensures intervals == Plateau(samples, None)
  {
    intervals := [];
    var start: Option<Sample> := None;
    for i := 0 to |samples|
      invariant start.Some? ==> start.value.Reading?
      invariant intervals + Plateau(samples[i..], start) == Plateau(samples, None)
    {
      var s := samples[i];
      assert samples[i..][0] == s && samples[i..][1..] == samples[i + 1..];
      match s {
        case Foreign =>
        case Malformed => start := None;
        case Reading(_, height) =>
          if start.Some? && height != start.value.height {
            intervals := intervals + Advance(start.value, s);
          }
          if start.None? || height != start.value.height {
            start := Some(s);
          }
      }
    }
  }

  // ----- what is an adjacent advance -----

  /** Two readings with nothing but foreign entries between them. */
  ghost predicate Neighbours(samples: seq<Sample>, i: int, j: int) {
    && 0 <= i < j < |samples| && samples[i].Reading? && samples[j].Reading?
    && forall k :: i < k < j ==> samples[k].Foreign?
  }

  /** The interval between two readings over which time and height both grow. */
  ghost predicate Between(x: Interval, from: Sample, to: Sample) {
    && from.Reading? && to.Reading? && from.time < to.time && from.height < to.height
    && x == Interval(from.height, to.height, to.time - from.time)
  }

  ghost predicate Rises(samples: seq<Sample>, i: int, j: int, x: Interval) {
    Neighbours(samples, i, j) && Between(x, samples[i], samples[j])
  }

  ghost predicate ListsNeighbours(intervals: seq<Interval>, samples: seq<Sample>) {
    forall x :: x in intervals <==> exists i, j :: Rises(samples, i, j, x)
  }

  /** The last entry that is not foreign, which is what the next one is compared with. */
  ghost function LastOf(samples: seq<Sample>): Option<Sample> {
    if samples == [] then None
    else if samples[|samples| - 1].Foreign? then LastOf(samples[..|samples| - 1])
    else Some(samples[|samples| - 1])
  }

  lemma {:induction false} LastIs(samples: seq<Sample>)
    ensures LastOf(samples).Some? && LastOf(samples).value.Reading? <==> exists i :: LastReading(samples, i)
    ensures forall i :: LastReading(samples, i) ==> LastOf(samples) == Some(samples[i])
  {
    if samples != [] {
      var n := |samples| - 1;
      LastIs(samples[..n]);
      if samples[n].Foreign? {
        assert forall i :: LastReading(samples[..n], i) <==> LastReading(samples, i);
      } else {
        assert forall i :: LastReading(samples, i) ==> i == n;
        assert samples[n].Reading? ==> LastReading(samples, n);
      }
    }
  }

  ghost predicate LastReading(samples: seq<Sample>, i: int) {
    0 <= i < |samples| && samples[i].Reading? && forall k :: i < k < |samples| ==> samples[k].Foreign?
  }

  /** One more sample adds the advance from the last entry, if both are readings. */
  ghost function AdvanceTo(samples: seq<Sample>, s: Sample): seq<Interval> {
    if LastOf(samples).Some? && LastOf(samples).value.Reading? && s.Reading? then Advance(LastOf(samples).value, s) else []
  }

  lemma {:induction false} AdjacentAppend(samples: seq<Sample>, s: Sample, previous: Option<Sample>)
    ensures Adjacent(samples + [s], previous)
         == Adjacent(samples, previous)
            + var last := if LastOf(samples).Some? then LastOf(samples) else previous;
              if last.Some? && last.value.Reading? && s.Reading? then Advance(last.value, s) else []
  {
    if samples == [] {
      assert (samples + [s])[1..] == [];
    } else {
      var x, rest := samples[0], samples[1..];
      assert (samples + [s])[0] == x && (samples + [s])[1..] == rest + [s];
      AdjacentAppend(rest, s, if x.Foreign? then previous else Some(x));
      LastOfRest(samples);
    }
  }

  lemma {:induction false} LastOfRest(samples: seq<Sample>)
    requires samples != []
    ensures LastOf(samples) == if LastOf(samples[1..]).Some? then LastOf(samples[1..])
                               else if samples[0].Foreign? then None else Some(samples[0])
  {
    var n := |samples| - 1;
    if n != 0 {
      assert samples[1..][..n - 1] == samples[..n][1..];
      if samples[n].Foreign? {
        LastOfRest(samples[..n]);
      }
    }
  }

  /** The adjacent summary lists exactly the advances between neighbouring readings, each with the time between
      them. */
  lemma {:induction false} AdjacentIsNeighbours(samples: seq<Sample>)
    ensures ListsNeighbours(Adjacent(samples, None), samples)
  {
    hide Adjacent, LastOf;
    if samples == [] {
      NothingListed();
    } else {
      var n := |samples| - 1;
      var before, s := samples[..n], samples[n];
      assert samples == before + [s];
      AdjacentIsNeighbours(before);
      AdjacentAppend(before, s, None);
      LastIs(before);
      NeighboursAppend(before, s, Adjacent(before, None));
    }
  }

  lemma NothingListed()
    ensures ListsNeighbours(Adjacent([], None), [])
  {
  }

  lemma RisesAppend(before: seq<Sample>, s: Sample, i: int, j: int, x: Interval)
    ensures Rises(before + [s], i, j, x)
       <==> if j == |before| then LastReading(before, i) && Between(x, before[i], s) else Rises(before, i, j, x)
  {
    assert forall k :: 0 <= k < |before| ==> (before + [s])[k] == before[k];
  }

  lemma AdvanceToIff(before: seq<Sample>, s: Sample, x: Interval)
    ensures x in AdvanceTo(before, s) <==> exists i :: LastReading(before, i) && Between(x, before[i], s)
  {
    hide LastOf;
    LastIs(before);
  }

  lemma NeighboursAppend(before: seq<Sample>, s: Sample, intervals: seq<Interval>)
    requires ListsNeighbours(intervals, before)
    ensures ListsNeighbours(intervals + AdvanceTo(before, s), before + [s])
  {
    hide AdvanceTo, Rises, Between;
    var samples, n := before + [s], |before|;
    forall x ensures x in intervals + AdvanceTo(before, s) <==> exists i, j :: Rises(samples, i, j, x) {
      AdvanceToIff(before, s, x);
      forall i, j ensures Rises(samples, i, j, x)
                     <==> if j == n then LastReading(before, i) && Between(x, before[i], s) else Rises(before, i, j, x)
      {
        RisesAppend(before, s, i, j, x);
      }
      if x in intervals {
        var i, j :| Rises(before, i, j, x);
        assert j != n by { RisesWithin(before, i, j, x); }
        assert Rises(samples, i, j, x);
      } else if x in AdvanceTo(before, s) {
        var i :| LastReading(before, i) && Between(x, before[i], s);
        assert Rises(samples, i, n, x);
      }
    }
  }

  lemma RisesWithin(samples: seq<Sample>, i: int, j: int, x: Interval)
    ensures Rises(samples, i, j, x) ==> j < |samples|
  {
  }

  // ----- how they compare -----

  /** Time grows strictly from reading to reading, at least where no malformed sample is between them. */
  ghost predicate Forward(samples: seq<Sample>, previous: Option<Sample>) {
    samples != [] ==>
      var s := samples[0];
      if s.Foreign? then Forward(samples[1..], previous)
      else
        (previous.Some? && previous.value.Reading? && s.Reading? ==> previous.value.time < s.time)
        && Forward(samples[1..], Some(s))
  }

  /** The same advances, and the plateau summary never sees one take less time. */
  ghost predicate NoShorter(plateau: seq<Interval>, adjacent: seq<Interval>) {
    |plateau| == |adjacent| &&
    forall i :: 0 <= i < |adjacent| ==>
      plateau[i].fromHeight == adjacent[i].fromHeight && plateau[i].toHeight == adjacent[i].toHeight
      && plateau[i].Delta() > 0 && 0.0 < adjacent[i].elapsed <= plateau[i].elapsed
  }

  lemma NoAdvance()
    ensures NoShorter([], [])
  {
  }

  lemma OnPlateau(previous: Sample, s: Sample)
    requires previous.Reading? && s.Reading? && s.height == previous.height
    ensures Advance(previous, s) == []
  {
  }

  lemma OneAdvance(start: Sample, previous: Sample, s: Sample, plateau: seq<Interval>, adjacent: seq<Interval>)
    requires start.Reading? && previous.Reading? && s.Reading? && start.height == previous.height
    requires start.time <= previous.time < s.time && NoShorter(plateau, adjacent)
    ensures NoShorter(Advance(start, s) + plateau, Advance(previous, s) + adjacent)
  {
    assert |Advance(start, s)| == |Advance(previous, s)| <= 1;
  }

  lemma {:induction false} SameAdvancesFrom(samples: seq<Sample>, previous: Option<Sample>, start: Option<Sample>)
    requires Forward(samples, previous)
    requires start.Some? <==> previous.Some? && previous.value.Reading?
    requires start.Some? ==> start.value.Reading? && start.value.height == previous.value.height
                             && start.value.time <= previous.value.time
    ensures NoShorter(Plateau(samples, start), Adjacent(samples, previous))
  {
    hide NoShorter, Advance;
    if samples == [] {
      NoAdvance();
    } else {
      var s, rest := samples[0], samples[1..];
      if s.Foreign? {
        SameAdvancesFrom(rest, previous, start);
      } else if s.Malformed? {
        SameAdvancesFrom(rest, Some(s), None);
      } else if start.None? {
        SameAdvancesFrom(rest, Some(s), Some(s));
      } else if s.height == start.value.height {
        SameAdvancesFrom(rest, Some(s), start);
        OnPlateau(previous.value, s);
        assert [] + Adjacent(rest, Some(s)) == Adjacent(rest, Some(s));
      } else {
        SameAdvancesFrom(rest, Some(s), Some(s));
        OneAdvance(start.value, previous.value, s, Plateau(rest, Some(s)), Adjacent(rest, Some(s)));
      }
    }
  }

  /** The two summaries list the same advances; each plateau rate is at most the adjacent one. */
  lemma SameAdvances(samples: seq<Sample>)
    requires Forward(samples, None)
    ensures NoShorter(Plateau(samples, None), Adjacent(samples, None))
    ensures forall i :: 0 <= i < |Adjacent(samples, None)| ==>
              Plateau(samples, None)[i].Rate() <= Adjacent(samples, None)[i].Rate()
  {
    SameAdvancesFrom(samples, None, None);
    var p, a := Plateau(samples, None), Adjacent(samples, None);
    forall i | 0 <= i < |a| ensures p[i].Rate() <= a[i].Rate() {
      LongerIsSlower(a[i].Delta() as real, a[i].elapsed, p[i].elapsed);
    }
  }

  lemma LongerIsSlower(d: real, short: real, long: real)
    requires 0.0 < d && 0.0 < short <= long
    ensures d / long <= d / short
  {
    assert d * short <= d * long;
    assert (d / short) * short == d && (d / long) * long == d;
  }

  // ----- what the advances add up to -----

  ghost function TotalDelta(intervals: seq<Interval>): int {
    if intervals == [] then 0 else intervals[0].Delta() + TotalDelta(intervals[1..])
  }

  ghost function TotalElapsed(intervals: seq<Interval>): real {
    if intervals == [] then 0.0 else intervals[0].elapsed + TotalElapsed(intervals[1..])
  }

  /** Readings only, with strictly growing time and heights that never fall. */
  ghost predicate Climbing(samples: seq<Sample>) {
    && (forall i :: 0 <= i < |samples| ==> samples[i].Reading?)
    && (forall i, j :: 0 <= i < j < |samples| ==> samples[i].time < samples[j].time && samples[i].height <= samples[j].height)
  }

  lemma {:induction false} ClimbingGoesForward(samples: seq<Sample>, previous: Option<Sample>)
    requires Climbing(samples)
    requires previous.Some? && previous.value.Reading? && samples != [] ==> previous.value.time < samples[0].time
    ensures Forward(samples, previous)
  {
    if samples != [] {
      ClimbingGoesForward(samples[1..], Some(samples[0]));
    }
  }

  /** The first reading at the final height. */
  ghost function LastAdvance(samples: seq<Sample>): (k: nat)
    requires samples != [] && Climbing(samples)
    ensures k < |samples| && samples[k].height == samples[|samples| - 1].height
    ensures forall i :: 0 <= i < k ==> samples[i].height < samples[|samples| - 1].height
  {
    if samples[0].height == samples[|samples| - 1].height then 0 else 1 + LastAdvance(samples[1..])
  }

  lemma {:induction false} AdjacentTotal(samples: seq<Sample>)
    requires samples != [] && Climbing(samples)
    ensures TotalDelta(Adjacent(samples[1..], Some(samples[0]))) == samples[|samples| - 1].height - samples[0].height
  {
    if |samples| > 1 {
      AdjacentTotal(samples[1..]);
      var rest := Adjacent(samples[2..], Some(samples[1]));
      assert samples[1..][1..] == samples[2..];
      var advance := Advance(samples[0], samples[1]);
      if advance != [] {
        assert (advance + rest)[1..] == rest;
      } else {
        assert advance + rest == rest;
      }
    }
  }

  /** `start` is any reading from which on the height stayed as it is at the first sample. */
  lemma {:induction false} PlateauTotal(samples: seq<Sample>, start: Sample)
    requires samples != [] && Climbing(samples)
    requires start.Reading? && start.height == samples[0].height && start.time <= samples[0].time
    ensures var total, last := Plateau(samples[1..], Some(start)), samples[|samples| - 1];
            && TotalDelta(total) == last.height - start.height
            && TotalElapsed(total) == if last.height == start.height then 0.0 else samples[LastAdvance(samples)].time - start.time
  {
    if |samples| > 1 {
      var s := samples[1];
      assert samples[1..][1..] == samples[2..];
      if s.height == start.height {
        PlateauTotal(samples[1..], start);
      } else {
        PlateauTotal(samples[1..], s);
        var advance, rest := Advance(start, s), Plateau(samples[2..], Some(s));
        assert (advance + rest)[1..] == rest;
      }
    }
  }

  /** Both lists of advances add up to the climb from the first to the last height; the plateau summary
      also accounts for all the time up to the last advance. */
  lemma AdvancesAddUp(samples: seq<Sample>)
    requires samples != [] && Climbing(samples)
    ensures TotalDelta(Adjacent(samples, None)) == samples[|samples| - 1].height - samples[0].height
    ensures TotalDelta(Plateau(samples, None)) == samples[|samples| - 1].height - samples[0].height
    ensures TotalElapsed(Plateau(samples, None)) == samples[LastAdvance(samples)].time - samples[0].time
  {
    AdjacentTotal(samples);
    PlateauTotal(samples, samples[0]);
  }
}
