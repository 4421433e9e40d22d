/** The grapheme-cluster boundary rules that .NET text elements follow: Unicode
    Standard Annex #29, section 3.1.1, rules GB1 to GB999 without GB9c.

    A text is a sequence of break classes, one for each scalar. The rules are
    stated on a (text, position) pair and may look back any distance; nothing in
    this module mentions the scanner that implements them.
 */
module GraphemeRules {

  datatype Class =
    | Other
    | CR
    | LF
    | Control
    | Extend
    | ZWJ
    | RegionalIndicator
    | Prepend
    | SpacingMark
    | HangulL
    | HangulV
    | HangulT
    | HangulLV
    | HangulLVT
    | ExtPict

  type Text = seq<Class>

  /** The classes after and before which GB4 and GB5 always break. */
  predicate Breaks(c: Class) {
    c == CR || c == LF || c == Control
  }

  /** The classes that GB9 and GB9a attach to whatever precedes them. */
  predicate Attaches(c: Class) {
    c == Extend || c == ZWJ || c == SpacingMark
  }

  /** GB6, GB7 and GB8: Hangul syllable sequences. */
  predicate HangulJoins(a: Class, b: Class) {
    || (a == HangulL && (b == HangulL || b == HangulV || b == HangulLV || b == HangulLVT))
    || ((a == HangulLV || a == HangulV) && (b == HangulV || b == HangulT))
    || ((a == HangulLVT || a == HangulT) && b == HangulT)
  }

  /** `ExtPict Extend* ZWJ` occupies exactly the positions `j` to `i - 1`. */
  ghost predicate EmojiChain(s: Text, j: int, i: int) {
    && 0 <= j < i - 1 < |s|
    && s[j] == ExtPict
    && s[i - 1] == ZWJ
    && forall k :: j < k < i - 1 ==> s[k] == Extend
  }

  /** Positions `j` to `i - 1` are a whole run of regional indicators on the left. */
  ghost predicate IndicatorRun(s: Text, j: int, i: int) {
    && 0 <= j <= i <= |s|
    && (forall k :: j <= k < i ==> s[k] == RegionalIndicator)
    && (j == 0 || s[j - 1] != RegionalIndicator)
  }

  /** GB11, left of the sign: the text before `i` ends in `ExtPict Extend* ZWJ`. */
  ghost predicate AfterEmojiChain(s: Text, i: int) {
    exists j :: EmojiChain(s, j, i)
  }

  /** GB12 and GB13, left of the sign: an odd run of regional indicators ends at `i`. */
  ghost predicate AfterOddIndicators(s: Text, i: int) {
    exists j :: IndicatorRun(s, j, i) && (i - j) % 2 == 1
  }

  /** Some rule from GB3 to GB13 keeps positions `i - 1` and `i` together. */
  ghost predicate Joined(s: Text, i: int)
    requires 0 < i < |s|
  {
    var a, b := s[i - 1], s[i];
    if a == CR && b == LF then true
    else if Breaks(a) || Breaks(b) then false
    else
      || HangulJoins(a, b)
      || Attaches(b)
      || a == Prepend
      || (b == ExtPict && AfterEmojiChain(s, i))
      || (b == RegionalIndicator && AfterOddIndicators(s, i))
  }

  ghost predicate Boundary(s: Text, i: int)
    requires 0 <= i <= |s|
  {
    i == 0 || i == |s| || !Joined(s, i)
  }

  /** For each position before the end, whether a text element starts there. */
  ghost function Starts(s: Text): (m: seq<bool>)
    ensures |m| == |s|
    ensures forall i :: 0 <= i < |s| ==> m[i] == Boundary(s, i)
  {
    seq(|s|, i requires 0 <= i < |s| => Boundary(s, i))
  }

  ghost function Count(m: seq<bool>): nat {
    if m == [] then 0 else Count(m[..|m| - 1]) + if m[|m| - 1] then 1 else 0
  }

  /** The number of text elements: each starts at a boundary before the end. */
  ghost function TextElements(s: Text): nat {
    Count(Starts(s))
  }

  // ----- elementary facts -----

  lemma {:induction false} CountConcat(a: seq<bool>, b: seq<bool>)
    ensures Count(a + b) == Count(a) + Count(b)
  {
    if b == [] {
      assert a + b == a;
    } else {
      var c := b[..|b| - 1];
      assert (a + b)[..|a + b| - 1] == a + c;
      CountConcat(a, c);
    }
  }

  lemma CountSplit(m: seq<bool>, n: int)
    requires 0 <= n <= |m|
    ensures Count(m) == Count(m[..n]) + Count(m[n..])
  {
    assert m == m[..n] + m[n..];
    CountConcat(m[..n], m[n..]);
  }

  lemma {:induction false} CountBounds(m: seq<bool>)
    ensures Count(m) <= |m|
    ensures Count(m) == 0 <==> forall i :: 0 <= i < |m| ==> !m[i]
  {
    if m != [] {
      CountBounds(m[..|m| - 1]);
    }
  }

  /** A text has an element if and only if it has a scalar, and never more elements than scalars. */
  lemma ElementsWithinScalars(s: Text)
    ensures TextElements(s) <= |s|
    ensures TextElements(s) == 0 <==> s == []
  {
    CountBounds(Starts(s));
    assert s != [] ==> Starts(s)[0];
  }

  /** A text is one element exactly when every two neighbours in it are joined. */
  lemma SingleElement(s: Text)
    requires s != []
    ensures TextElements(s) == 1 <==> forall i :: 0 < i < |s| ==> Joined(s, i)
  {
    var m := Starts(s);
    CountSplit(m, 1);
    assert m[..1] == [true];
    CountBounds(m[1..]);
    assert forall i :: 0 < i < |s| ==> m[1..][i - 1] == !Joined(s, i);
  }

  /** A whole run of regional indicators is determined by where it ends. */
  lemma IndicatorParity(s: Text, j: int, i: int)
    requires IndicatorRun(s, j, i)
    ensures AfterOddIndicators(s, i) <==> (i - j) % 2 == 1
  {
    forall j' | IndicatorRun(s, j', i) ensures j' == j {
      var k := if j < j' then j' - 1 else j - 1;
      assert 0 <= k < i ==> s[k] == RegionalIndicator || k < j || k < j';
    }
  }

  lemma IndicatorRunExists(s: Text, i: int) returns (j: int)
    requires 0 <= i <= |s|
    ensures IndicatorRun(s, j, i)
  {
    j := i;
    while 0 < j && s[j - 1] == RegionalIndicator
      invariant 0 <= j <= i
      invariant forall k :: j <= k < i ==> s[k] == RegionalIndicator
    {
      j := j - 1;
    }
  }

  // ----- what the rules may look at -----

  /** The rules never look past the position itself: a longer text keeps the earlier boundaries. */
  lemma PrefixIndependence(s: Text, t: Text, i: int)
    requires 0 <= i < |s|
    ensures Boundary(s + t, i) == Boundary(s, i)
  {
    var u := s + t;
    if 0 < i {
      assert forall k :: 0 <= k < |s| ==> u[k] == s[k];
      assert forall j :: EmojiChain(u, j, i) <==> EmojiChain(s, j, i);
      assert forall j :: IndicatorRun(u, j, i) <==> IndicatorRun(s, j, i);
    }
  }

  /** `s` ends in `ExtPict Extend*`, the pictograph at `j`. */
  ghost predicate OpenTail(s: Text, j: int) {
    0 <= j < |s| && s[j] == ExtPict && forall k :: j < k < |s| ==> s[k] == Extend
  }

  /** `t` starts with `Extend* ZWJ`, the joiner at `q - 1`. */
  ghost predicate ChainHead(t: Text, q: int) {
    0 < q <= |t| && t[q - 1] == ZWJ && forall k :: 0 <= k < q - 1 ==> t[k] == Extend
  }

  ghost predicate AllIndicators(t: Text, n: int) {
    0 <= n <= |t| && forall k :: 0 <= k < n ==> t[k] == RegionalIndicator
  }

  lemma EmojiAcrossJoin(s: Text, t: Text, q: int)
    requires 0 < q <= |t|
    ensures AfterEmojiChain(s + t, |s| + q)
       <==> AfterEmojiChain(t, q) || (ChainHead(t, q) && exists j :: OpenTail(s, j))
  {
    var u, p := s + t, |s| + q;
    assert forall k :: 0 <= k < |t| ==> t[k] == u[k + |s|];
    assert forall k :: 0 <= k < |s| ==> s[k] == u[k];
    if AfterEmojiChain(u, p) {
      var j :| EmojiChain(u, j, p);
      if |s| <= j {
        assert EmojiChain(t, j - |s|, q);
      } else {
        assert OpenTail(s, j);
        assert ChainHead(t, q);
      }
    }
    if AfterEmojiChain(t, q) {
      var j :| EmojiChain(t, j, q);
      assert EmojiChain(u, j + |s|, p);
    }
    if ChainHead(t, q) && exists j :: OpenTail(s, j) {
      var j :| OpenTail(s, j);
      assert EmojiChain(u, j, p);
    }
  }

  lemma IndicatorsAcrossJoin(s: Text, t: Text, q: int)
    requires 0 <= q <= |t|
    ensures AfterOddIndicators(s + t, |s| + q)
       <==> (AfterOddIndicators(t, q) != (AllIndicators(t, q) && AfterOddIndicators(s, |s|)))
  {
    var j := IndicatorRunExists(t, q);
    var i := IndicatorRunExists(s, |s|);
    IndicatorParity(t, j, q);
    IndicatorParity(s, i, |s|);
    if 0 < j {
      assert t[j - 1] != RegionalIndicator;
      RunBehindJoin(s, t, j, q);
    } else {
      RunAcrossJoin(s, t, i, q);
    }
  }

  lemma RunBehindJoin(s: Text, t: Text, j: int, q: int)
    requires 0 < j && IndicatorRun(t, j, q)
    ensures AfterOddIndicators(s + t, |s| + q) <==> (q - j) % 2 == 1
  {
    var u := s + t;
    forall k | |s| + j - 1 <= k < |s| + q ensures u[k] == t[k - |s|] {
    }
    IndicatorParity(u, |s| + j, |s| + q);
  }

  lemma RunAcrossJoin(s: Text, t: Text, i: int, q: int)
    requires IndicatorRun(s, i, |s|) && AllIndicators(t, q)
    ensures AfterOddIndicators(s + t, |s| + q) <==> (q + |s| - i) % 2 == 1
  {
    IndicatorParity(s + t, i, |s| + q);
  }

  /** Behind the join the boundaries of `t` survive, but for one bridged emoji and for indicator parity. */
  lemma BoundaryAcrossJoin(s: Text, t: Text, q: int)
    requires s != [] && 0 < q <= |t|
    requires q < |t| && t[q] == ExtPict ==> !(ChainHead(t, q) && exists j :: OpenTail(s, j))
    requires q < |t| && t[q] == RegionalIndicator ==> !(AllIndicators(t, q) && AfterOddIndicators(s, |s|))
    ensures Boundary(s + t, q + |s|) == Boundary(t, q)
  {
    EmojiAcrossJoin(s, t, q);
    IndicatorsAcrossJoin(s, t, q);
  }

  /** No emoji chain crosses a boundary. */
  lemma NoBridgeAtBoundary(s: Text, t: Text, q: int)
    requires s != [] && t != [] && Boundary(s + t, |s|) && ChainHead(t, q)
    ensures forall j :: !OpenTail(s, j)
  {
    assert (s + t)[|s|] == t[0] && Attaches(t[0]);
    assert (s + t)[|s| - 1] == s[|s| - 1];
    assert Breaks(s[|s| - 1]);
  }

  /** An odd run of regional indicators never ends at a boundary before another one. */
  lemma EvenAtBoundary(s: Text, t: Text)
    requires s != [] && t != [] && Boundary(s + t, |s|) && t[0] == RegionalIndicator
    ensures !AfterOddIndicators(s, |s|)
  {
    IndicatorsAcrossJoin(s, t, 0);
    IndicatorParity(t, 0, 0);
    assert (s + t)[|s|] == t[0];
    assert (s + t)[|s| - 1] == s[|s| - 1];
  }

  /** A boundary cuts all context: what follows is segmented as a text of its own. */
  lemma BoundaryCutsContext(s: Text, t: Text, q: int)
    requires s != [] && 0 < q <= |t| && Boundary(s + t, |s|)
    ensures Boundary(s + t, q + |s|) == Boundary(t, q)
  {
    if ChainHead(t, q) { NoBridgeAtBoundary(s, t, q); }
    if AllIndicators(t, q) { EvenAtBoundary(s, t); }
    BoundaryAcrossJoin(s, t, q);
  }

  lemma SuffixIndependence(s: Text, p: int, i: int)
    requires 0 <= p <= i <= |s| && Boundary(s, p)
    ensures Boundary(s, i) == Boundary(s[p..], i - p)
  {
    if 0 < p < i {
      assert s == s[..p] + s[p..];
      BoundaryCutsContext(s[..p], s[p..], i - p);
    } else {
      assert s[0..] == s;
    }
  }

  /** Behind a boundary, elements start where they start in the rest on its own. */
  lemma StartsBehindBoundary(s: Text, p: int)
    requires 0 <= p <= |s| && Boundary(s, p)
    ensures Starts(s)[p..] == Starts(s[p..])
  {
    forall q | 0 <= q < |s| - p ensures Starts(s)[p..][q] == Starts(s[p..])[q] {
      SuffixIndependence(s, p, q + p);
    }
  }

  /** In the part of a concatenation that is `s`, elements start where they start in `s`. */
  lemma StartsBeforeJoin(s: Text, t: Text)
    ensures Starts(s + t)[..|s|] == Starts(s)
  {
    forall q | 0 <= q < |s| ensures Starts(s + t)[..|s|][q] == Starts(s)[q] {
      PrefixIndependence(s, t, q);
    }
  }
}
