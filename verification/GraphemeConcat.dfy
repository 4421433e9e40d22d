/** How many text elements a concatenation has.

    Emoji chains and regional-indicator parity reach across the join, so the count
    is not additive. `ConcatElements` gives the exact difference for all texts.
 */
module GraphemeConcat {
  import opened GraphemeRules

  /** An emoji chain of GB11 runs across the join and takes in a pictograph of `t`. */
  ghost predicate BridgesEmoji(s: Text, t: Text) {
    (exists j :: OpenTail(s, j)) && exists q :: ChainHead(t, q) && q < |t| && t[q] == ExtPict
  }

  /** The number of regional indicators that `t` starts with. */
  ghost function LeadingIndicators(t: Text): (n: nat)
    ensures AllIndicators(t, n) && (n == |t| || t[n] != RegionalIndicator)
  {
    if t == [] || t[0] != RegionalIndicator then 0
    else
      var m := LeadingIndicators(t[1..]);
      assert forall k :: 0 < k < m + 1 ==> t[k] == t[1..][k - 1];
      assert m + 1 < |t| ==> t[m + 1] == t[1..][m];
      m + 1
  }

  /** How many elements the join of `s` and `t` loses. */
  ghost function JoinLoss(s: Text, t: Text): nat {
    if s == [] || t == [] || Boundary(s + t, |s|) then 0
    else if BridgesEmoji(s, t) then 2
    else if t[0] == RegionalIndicator && AfterOddIndicators(s, |s|) then LeadingIndicators(t) % 2
    else 1
  }

  /** Elements that start at every second position, from position `parity` on. */
  lemma {:induction false} CountAlternating(m: seq<bool>, parity: int)
    requires 0 <= parity <= 1
    requires forall q :: 0 <= q < |m| ==> (m[q] <==> q % 2 == parity)
    ensures Count(m) == (|m| + 1 - parity) / 2
  {
    if m != [] {
      CountAlternating(m[..|m| - 1], parity);
    }
  }

  /** Where the starts agree from position `from` of `t` on, only the part before it counts. */
  lemma AgreeFrom(u: seq<bool>, t: seq<bool>, from: int)
    requires |u| == |t| && 0 <= from <= |t| && u[from..] == t[from..]
    ensures Count(u) - Count(u[..from]) == Count(t) - Count(t[..from])
  {
    CountSplit(u, from);
    CountSplit(t, from);
  }

  lemma IndicatorsAlternate(s: Text, t: Text, q: int)
    requires s != [] && AfterOddIndicators(s, |s|) && 0 <= q < LeadingIndicators(t)
    ensures Boundary(t, q) <==> q % 2 == 0
    ensures Boundary(s + t, |s| + q) <==> q % 2 == 1
  {
    IndicatorsAcrossJoin(s, t, q);
    IndicatorParity(t, 0, q);
    var u, p := s + t, |s| + q;
    assert u[p - 1] == RegionalIndicator by {
      var j :| IndicatorRun(s, j, |s|) && (|s| - j) % 2 == 1;
      assert q == 0 ==> u[p - 1] == s[|s| - 1];
      assert 0 < q ==> u[p - 1] == t[q - 1];
    }
    assert u[p] == t[q];
  }

  lemma ConcatWithIndicators(s: Text, t: Text)
    requires s != [] && t != [] && t[0] == RegionalIndicator && AfterOddIndicators(s, |s|)
    ensures Count(Starts(s + t)[|s|..]) + LeadingIndicators(t) % 2 == TextElements(t)
  {
    var k, u, m := LeadingIndicators(t), Starts(s + t)[|s|..], Starts(t);
    forall q | 0 <= q < k
      ensures m[..k][q] <==> q % 2 == 0
      ensures u[..k][q] <==> q % 2 == 1
    {
      IndicatorsAlternate(s, t, q);
    }
    CountAlternating(m[..k], 0);
    CountAlternating(u[..k], 1);
    assert s[|s| - 1] == RegionalIndicator by {
      var j :| IndicatorRun(s, j, |s|) && (|s| - j) % 2 == 1;
    }
    forall q | k <= q < |t| ensures u[q] == m[q] {
      BoundaryAcrossJoin(s, t, q);
    }
    AgreeFrom(u, m, k);
  }

  /** Where the bridged pictograph stands, `t` alone breaks and the concatenation does not. */
  lemma BridgedPictograph(s: Text, t: Text, p: int)
    requires (exists j :: OpenTail(s, j)) && ChainHead(t, p) && p < |t| && t[p] == ExtPict
    ensures !Boundary(s + t, |s|)
    ensures Boundary(t, p) && !Boundary(s + t, p + |s|)
  {
    var j :| OpenTail(s, j);
    assert (s + t)[|s|] == t[0] && Attaches(t[0]);
    assert (s + t)[|s| - 1] == s[|s| - 1] && !Breaks(s[|s| - 1]);
    assert (s + t)[|s| + p] == t[p] && (s + t)[|s| + p - 1] == t[p - 1];
    EmojiAcrossJoin(s, t, p);
    assert forall i :: 0 <= i < p ==> t[i] != ExtPict;
  }

  lemma ConcatWithEmoji(s: Text, t: Text)
    requires s != [] && t != [] && BridgesEmoji(s, t)
    ensures !Boundary(s + t, |s|)
    ensures Count(Starts(s + t)[|s|..]) + 2 == TextElements(t)
  {
    var u, m := Starts(s + t)[|s|..], Starts(t);
    var p :| ChainHead(t, p) && p < |t| && t[p] == ExtPict;
    BridgedPictograph(s, t, p);
    forall q | 1 <= q < |t| && q != p ensures u[q] == m[q] {
      assert t[q] == ExtPict ==> !ChainHead(t, q);
      assert !AllIndicators(t, q);
      BoundaryAcrossJoin(s, t, q);
    }
    CountTwoMore(u, m, p);
  }

  lemma CountTwoMore(u: seq<bool>, m: seq<bool>, p: int)
    requires |u| == |m| && 0 < p < |m|
    requires !u[0] && m[0] && !u[p] && m[p]
    requires forall q :: 0 < q < |m| && q != p ==> u[q] == m[q]
    ensures Count(u) + 2 == Count(m)
  {
    AgreeFrom(u, m, p + 1);
    assert u[..p + 1][..p] == u[..p] && m[..p + 1][..p] == m[..p];
    AgreeFrom(u[..p], m[..p], 1);
    assert u[..p][..1] == [false] && m[..p][..1] == [true];
  }

  lemma ConcatPlain(s: Text, t: Text)
    requires s != [] && t != [] && !Boundary(s + t, |s|) && !BridgesEmoji(s, t)
    requires !(t[0] == RegionalIndicator && AfterOddIndicators(s, |s|))
    ensures Count(Starts(s + t)[|s|..]) + 1 == TextElements(t)
  {
    var u, m := Starts(s + t)[|s|..], Starts(t);
    forall q | 1 <= q < |t| ensures u[q] == m[q] {
      BoundaryAcrossJoin(s, t, q);
    }
    AgreeFrom(u, m, 1);
    assert u[..1] == [false] && m[..1] == [true];
  }

  /** The exact count of a concatenation. */
  lemma ConcatElements(s: Text, t: Text)
    ensures TextElements(s + t) + JoinLoss(s, t) == TextElements(s) + TextElements(t)
  {
    if s == [] {
      assert s + t == t;
    } else if t == [] {
      assert s + t == s;
    } else {
      StartsBeforeJoin(s, t);
      CountSplit(Starts(s + t), |s|);
      if Boundary(s + t, |s|) {
        assert (s + t)[|s|..] == t;
        StartsBehindBoundary(s + t, |s|);
      } else if BridgesEmoji(s, t) {
        ConcatWithEmoji(s, t);
      } else if t[0] == RegionalIndicator && AfterOddIndicators(s, |s|) {
        ConcatWithIndicators(s, t);
      } else {
        ConcatPlain(s, t);
      }
    }
  }

  /** A join loses two elements at most and never gains one. */
  lemma ConcatBounds(s: Text, t: Text)
    ensures TextElements(s) + TextElements(t) - 2 <= TextElements(s + t) <= TextElements(s) + TextElements(t)
  {
    ConcatElements(s, t);
  }

  /** Both bounds are reached, and so is what lies between. */
  lemma ConcatBoundsAreTight()
    ensures TextElements([ExtPict] + [ZWJ, ExtPict]) == TextElements([ExtPict]) + TextElements([ZWJ, ExtPict]) - 2
    ensures TextElements([Other] + [Extend]) == TextElements([Other]) + TextElements([Extend]) - 1
    ensures TextElements([Other] + [Other]) == TextElements([Other]) + TextElements([Other])
  {
    assert OpenTail([ExtPict], 0) && ChainHead([ZWJ, ExtPict], 1);
    ConcatWithEmoji([ExtPict], [ZWJ, ExtPict]);
    ConcatElements([ExtPict], [ZWJ, ExtPict]);
    ConcatElements([Other], [Extend]);
    ConcatElements([Other], [Other]);
  }

  /** A control always stands alone and separates what is around it. */
  lemma ControlSeparates(s: Text, t: Text)
    ensures TextElements(s + [Control] + t) == TextElements(s) + 1 + TextElements(t)
  {
    var c := [Control];
    assert Starts(c) == [true];
    ConcatElements(s, c);
    ConcatElements(s + c, t);
  }
}
