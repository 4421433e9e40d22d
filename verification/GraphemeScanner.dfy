/** The forward scanner behind `StdLib.strLen` and its agreement with the boundary rules.

    The scanner keeps one class as its state and never looks back; the rules look
    back any distance. `FirstClusterLen` cuts at the first boundary the rules give,
    and because a boundary cuts all context, repeating it finds every boundary.
 */
module GraphemeScanner {
  import opened GraphemeRules

  /** No boundary lies strictly between the start of `s` and `i`. */
  ghost predicate Together(s: Text, i: int) {
    0 < i <= |s| && forall k :: 0 < k < i ==> !Boundary(s, k)
  }

  /** `n` is the first boundary after the start of `s`. */
  ghost predicate FirstBoundary(s: Text, n: int) {
    Together(s, n) && Boundary(s, n)
  }

  /** `ExtPict Extend*` occupies the positions `j` to `i - 1`: a ZWJ next would complete the chain. */
  ghost predicate OpenChain(s: Text, j: int, i: int) {
    0 <= j < i <= |s| && s[j] == ExtPict && forall k :: j < k < i ==> s[k] == Extend
  }

  /** Nothing but an attaching class can still extend the cluster that reaches up to `i`. */
  ghost predicate CoreEnds(s: Text, i: int) {
    && Together(s, i)
    && s[i - 1] != Prepend && !Breaks(s[i - 1])
    && (i < |s| ==>
          && !HangulJoins(s[i - 1], s[i])
          && (s[i] == ExtPict ==> !AfterEmojiChain(s, i))
          && (s[i] == RegionalIndicator ==> !AfterOddIndicators(s, i))
          && (s[i] == Extend || s[i] == ZWJ ==> forall j :: !OpenChain(s, j, i)))
  }

  lemma JoinedStaysTogether(s: Text, i: int)
    requires Together(s, i) && i < |s| && Joined(s, i)
    ensures Together(s, i + 1)
  {
  }

  lemma PrependedStaysTogether(s: Text, i: int)
    requires 0 <= i < |s| && !Breaks(s[i])
    requires forall k :: 0 <= k < i ==> s[k] == Prepend
    ensures Together(s, i + 1)
  {
  }

  /** Prepend scalars alone, at the end of the text or before a break (GB5 outranks GB9b). */
  lemma OnlyPrepended(s: Text, i: int)
    requires 0 < i <= |s| && forall k :: 0 <= k < i ==> s[k] == Prepend
    ensures i == |s| || Breaks(s[i]) ==> FirstBoundary(s, i)
  {
    PrependedStaysTogether(s, i - 1);
  }

  /** A control, a CR, an LF or a CR LF pair is a cluster (GB3, GB4). */
  lemma BreakStandsAlone(s: Text)
    requires s != []
    ensures Breaks(s[0]) ==> FirstBoundary(s, if s[0] == CR && 1 < |s| && s[1] == LF then 2 else 1)
  {
    if Breaks(s[0]) {
      assert 1 < |s| ==> (Joined(s, 1) <==> s[0] == CR && s[1] == LF);
      assert 2 < |s| && s[1] == LF ==> !Joined(s, 2);
    }
  }

  lemma AttachingStaysTogether(s: Text, i: int)
    requires CoreEnds(s, i) && i < |s| && Attaches(s[i])
    ensures CoreEnds(s, i + 1)
  {
    var m := i + 1;
    assert forall j :: EmojiChain(s, j, m) ==> OpenChain(s, j, i);
    assert forall j :: OpenChain(s, j, m) ==> OpenChain(s, j, i);
    IndicatorParity(s, m, m);
  }

  /** GB11 with the chain still open at `i`: the ZWJ there and the pictograph after it both join. */
  lemma EmojiStaysTogether(s: Text, j: int, i: int)
    requires Together(s, i) && OpenChain(s, j, i)
    requires i + 1 < |s| && s[i] == ZWJ && s[i + 1] == ExtPict
    ensures Together(s, i + 2)
  {
    JoinedStaysTogether(s, i);
    assert EmojiChain(s, j, i + 1);
    JoinedStaysTogether(s, i + 1);
  }

  lemma OtherCoreEnds(s: Text, i: int)
    requires Together(s, i)
    requires s[i - 1] != Prepend && !Breaks(s[i - 1]) && s[i - 1] != RegionalIndicator
    requires i < |s| ==> !HangulJoins(s[i - 1], s[i])
    requires forall k :: 0 <= k < i ==> s[k] != ExtPict
    ensures CoreEnds(s, i)
  {
    IndicatorParity(s, i, i);
  }

  /** After its last pictograph at `j` the emoji core takes all Extend scalars and perhaps one ZWJ. */
  lemma EmojiCoreEnds(s: Text, j: int, i: int)
    requires Together(s, i) && OpenChain(s, j, i)
    requires i < |s| ==> s[i] != Extend
    ensures i == |s| || s[i] != ZWJ ==> CoreEnds(s, i)
    ensures i < |s| && s[i] == ZWJ && (i + 1 < |s| ==> s[i + 1] != ExtPict) ==> CoreEnds(s, i + 1)
  {
    IndicatorParity(s, i, i);
    if i < |s| && s[i] == ZWJ {
      JoinedStaysTogether(s, i);
      IndicatorParity(s, i + 1, i + 1);
    }
  }

  /** One or two regional indicators at the start of the text, or behind leading Prepend scalars. */
  lemma IndicatorCoreEnds(s: Text, head: int, i: int)
    requires 0 <= head < i == head + 1 <= |s| && Together(s, i)
    requires forall k :: 0 <= k < head ==> s[k] == Prepend
    requires s[head] == RegionalIndicator
    ensures i < |s| && s[i] == RegionalIndicator ==> CoreEnds(s, i + 1)
    ensures i == |s| || s[i] != RegionalIndicator ==> CoreEnds(s, i)
  {
    if i < |s| && s[i] == RegionalIndicator {
      IndicatorParity(s, head, i);
      JoinedStaysTogether(s, i);
      IndicatorParity(s, head, i + 1);
    }
  }

  /** The Hangul, emoji and regional-indicator part of a cluster, from the scalar at `head` on. */
  method ScanCore(classes: Text, head: nat) returns (i: nat)
    requires head < |classes| && !Breaks(classes[head]) && classes[head] != Prepend
    requires forall k :: 0 <= k < head ==> classes[k] == Prepend
    ensures CoreEnds(classes, i)
  {
    hide CoreEnds, Together;
    var n := |classes|;
    var state := classes[head];
    i := head + 1;
    PrependedStaysTogether(classes, head);
    while true
      invariant head < i <= n && Together(classes, i)
      invariant !Breaks(state) && state != Prepend
      invariant state == RegionalIndicator ==> head == i - 1
      invariant state != ExtPict ==> forall k :: 0 <= k < i ==> classes[k] != ExtPict
      invariant classes[i - 1] == state || (state == HangulLVT && classes[i - 1] == HangulT)
      decreases n - i
    {
      if state == HangulL {
        if i < n && (classes[i] == HangulL || classes[i] == HangulV || classes[i] == HangulLV || classes[i] == HangulLVT) {
          JoinedStaysTogether(classes, i);
          state := classes[i];
          i := i + 1;
          continue;
        }
        OtherCoreEnds(classes, i);
      } else if state == HangulLV || state == HangulV {
        if i < n && (classes[i] == HangulV || classes[i] == HangulT) {
          JoinedStaysTogether(classes, i);
          state := classes[i];
          i := i + 1;
          continue;
        }
        OtherCoreEnds(classes, i);
      } else if state == HangulLVT || state == HangulT {
        if i < n && classes[i] == HangulT {
          JoinedStaysTogether(classes, i);
          i := i + 1;
          continue;
        }
        OtherCoreEnds(classes, i);
      } else if state == ExtPict {
        ghost var last := i - 1;
        while i < n && classes[i] == Extend
          invariant OpenChain(classes, last, i) && Together(classes, i)
        {
          JoinedStaysTogether(classes, i);
          i := i + 1;
        }
        EmojiCoreEnds(classes, last, i);
        if i < n && classes[i] == ZWJ {
          if i + 1 < n && classes[i + 1] == ExtPict {
            EmojiStaysTogether(classes, last, i);
            i := i + 2;
            continue;
          }
          i := i + 1;
        }
      } else if state == RegionalIndicator {
        IndicatorCoreEnds(classes, head, i);
        if i < n && classes[i] == RegionalIndicator {
          i := i + 1;
        }
      } else {
        OtherCoreEnds(classes, i);
      }
      break;
    }
  }

  /** The scan of one cluster, over the scalars that are left. */
  method FirstClusterLen(classes: Text) returns (i: nat)
    requires classes != []
    ensures FirstBoundary(classes, i)
  {
    var n := |classes|;
    i := 0;

    if classes[0] == Prepend {
      while i < n && classes[i] == Prepend
        invariant 0 <= i <= n
        invariant forall k :: 0 <= k < i ==> classes[k] == Prepend
      {
        i := i + 1;
      }
      OnlyPrepended(classes, i);
      if i == n {
        return;
      }
      if Breaks(classes[i]) {
        return;
      }
    }

    var head := i;
    i := i + 1;
    BreakStandsAlone(classes);

    if classes[head] == CR {
      if i < n && classes[i] == LF {
        i := i + 1;
      }
      return;
    }
    if classes[head] == Control || classes[head] == LF {
      return;
    }

    i := ScanCore(classes, head);
    while i < n && Attaches(classes[i])
      invariant CoreEnds(classes, i)
    {
      AttachingStaysTogether(classes, i);
      i := i + 1;
    }
  }

  /** `pos` is a boundary and `count` elements start before it. */
  ghost predicate CountedUpTo(s: Text, pos: int, count: int) {
    0 <= pos <= |s| && Boundary(s, pos) && count == Count(Starts(s)[..pos])
  }

  /** Repeated first-cluster scanning counts exactly the text elements of the rules. */
  method MachineCount(classes: Text) returns (count: nat)
    ensures count == TextElements(classes)
  {
    hide CountedUpTo, FirstBoundary, TextElements;
    CountedEnds(classes, 0);
    count := 0;
    var pos := 0;
    while pos < |classes|
      invariant 0 <= pos <= |classes| && CountedUpTo(classes, pos, count)
    {
      var len := FirstClusterLen(classes[pos..]);
      NextCluster(classes, pos, len, count);
      pos := pos + len;
      count := count + 1;
    }
    CountedEnds(classes, count);
  }

  lemma CountedEnds(s: Text, count: nat)
    ensures CountedUpTo(s, 0, 0)
    ensures CountedUpTo(s, |s|, count) ==> count == TextElements(s)
  {
    assert Starts(s)[..|s|] == Starts(s);
  }

  /** The first boundary of what is left is the next boundary of the whole text. */
  lemma NextCluster(s: Text, pos: int, len: int, count: int)
    requires CountedUpTo(s, pos, count) && pos < |s| && FirstBoundary(s[pos..], len)
    ensures 0 < len && pos + len <= |s| && CountedUpTo(s, pos + len, count + 1)
  {
    var m := Starts(s)[..pos + len];
    SuffixIndependence(s, pos, pos + len);
    StartsBehindBoundary(s, pos);
    CountSplit(m, pos);
    assert m[..pos] == Starts(s)[..pos];
    forall q | 0 <= q < len ensures m[pos..][q] <==> q == 0 {
      assert m[pos..][q] == Starts(s)[pos..][q] == Boundary(s[pos..], q);
    }
    CountFirstOnly(m[pos..]);
  }

  lemma {:induction false} CountFirstOnly(m: seq<bool>)
    requires m != [] && forall q :: 0 <= q < |m| ==> (m[q] <==> q == 0)
    ensures Count(m) == 1
  {
    if 1 < |m| {
      CountFirstOnly(m[..|m| - 1]);
    }
  }
}
