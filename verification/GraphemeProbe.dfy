/** Recovering a code point's break class from text-element counts alone.

    `len` stands for .NET's `StringInfo`. The classifier only compares counts of
    short probe texts; `ClassifyRecovers` says that it inverts every assignment of
    classes under which the counts are those of the boundary rules.
 */
module GraphemeProbe {
  import opened GraphemeRules

  type CodePoint = nat

  const LINE_FEED: CodePoint := 0x0A
  const CARRIAGE_RETURN: CodePoint := 0x0D
  const LATIN_A: CodePoint := 0x41
  const COMBINING_GRAVE: CodePoint := 0x0300
  const JOINER: CodePoint := 0x200D
  const INDICATOR_A: CodePoint := 0x1F1E6
  const GRINNING_FACE: CodePoint := 0x1F600
  const CHOSEONG_KIYEOK: CodePoint := 0x1100
  const JUNGSEONG_FILLER: CodePoint := 0x1160
  const JONGSEONG_KIYEOK: CodePoint := 0x11A8

  function Classify(len: seq<CodePoint> -> nat, u: CodePoint): Class {
    if len([u, COMBINING_GRAVE]) == 2 then
      if len([u, LINE_FEED]) == 1 then CR
      else if len([CARRIAGE_RETURN, u]) == 1 then LF
      else Control
    else if len([LATIN_A, u]) == 1 then
      if len([GRINNING_FACE, u, GRINNING_FACE]) == 1 then ZWJ
      else if len([GRINNING_FACE, u, JOINER, GRINNING_FACE]) == 1 then Extend
      else SpacingMark
    else if len([u, LATIN_A]) == 1 then Prepend
    else if len([u, INDICATOR_A]) == 1 then RegionalIndicator
    else if len([GRINNING_FACE, JOINER, u]) == 1 then ExtPict
    else if len([u, JUNGSEONG_FILLER]) == 1 then
      if len([u, CHOSEONG_KIYEOK]) == 1 then HangulL
      else if len([JUNGSEONG_FILLER, u]) == 1 then HangulV
      else HangulLV
    else if len([u, JONGSEONG_KIYEOK]) == 1 then
      if len([CHOSEONG_KIYEOK, u]) == 1 then HangulLVT
      else HangulT
    else Other
  }

  function ClassesOf(cls: CodePoint -> Class, text: seq<CodePoint>): Text {
    seq(|text|, i requires 0 <= i < |text| => cls(text[i]))
  }

  /** The probe characters have the classes the classifier was written for. */
  predicate ProbesAsDocumented(cls: CodePoint -> Class) {
    && cls(LINE_FEED) == LF
    && cls(CARRIAGE_RETURN) == CR
    && cls(LATIN_A) == Other
    && cls(COMBINING_GRAVE) == Extend
    && cls(JOINER) == ZWJ
    && cls(INDICATOR_A) == RegionalIndicator
    && cls(GRINNING_FACE) == ExtPict
    && cls(CHOSEONG_KIYEOK) == HangulL
    && cls(JUNGSEONG_FILLER) == HangulV
    && cls(JONGSEONG_KIYEOK) == HangulT
  }

  /** `len` counts the elements that the boundary rules give under `cls`. */
  ghost predicate CountsByRules(len: seq<CodePoint> -> nat, cls: CodePoint -> Class) {
    forall text: seq<CodePoint> :: len(text) == TextElements(ClassesOf(cls, text))
  }

  /** What the rules say of two classes on their own. */
  predicate PairJoins(a: Class, b: Class) {
    || (a == CR && b == LF)
    || (&& !Breaks(a) && !Breaks(b)
        && (|| HangulJoins(a, b) || Attaches(b) || a == Prepend
            || (a == RegionalIndicator && b == RegionalIndicator)))
  }

  lemma PairProbe(len: seq<CodePoint> -> nat, cls: CodePoint -> Class, x: CodePoint, y: CodePoint)
    requires CountsByRules(len, cls)
    ensures len([x, y]) == if PairJoins(cls(x), cls(y)) then 1 else 2
  {
    var s := [cls(x), cls(y)];
    assert ClassesOf(cls, [x, y]) == s;
    assert s[0] == RegionalIndicator ==> IndicatorRun(s, 0, 1);
    assert Joined(s, 1) <==> PairJoins(s[0], s[1]);
    SingleElement(s);
    ElementsWithinScalars(s);
  }

  /** Between two pictographs only a ZWJ keeps the probe whole (GB11). */
  lemma JoinerProbe(len: seq<CodePoint> -> nat, cls: CodePoint -> Class, u: CodePoint)
    requires ProbesAsDocumented(cls) && CountsByRules(len, cls) && Attaches(cls(u))
    ensures len([GRINNING_FACE, u, GRINNING_FACE]) == 1 <==> cls(u) == ZWJ
  {
    var s := [ExtPict, cls(u), ExtPict];
    assert ClassesOf(cls, [GRINNING_FACE, u, GRINNING_FACE]) == s;
    assert s[1] == ZWJ ==> EmojiChain(s, 0, 2);
    assert Joined(s, 1) && (Joined(s, 2) <==> s[1] == ZWJ);
    SingleElement(s);
  }

  /** Before a ZWJ only an Extend keeps the emoji chain alive (GB11). */
  lemma ChainProbe(len: seq<CodePoint> -> nat, cls: CodePoint -> Class, u: CodePoint)
    requires ProbesAsDocumented(cls) && CountsByRules(len, cls) && (cls(u) == Extend || cls(u) == SpacingMark)
    ensures len([GRINNING_FACE, u, JOINER, GRINNING_FACE]) == 1 <==> cls(u) == Extend
  {
    var s := [ExtPict, cls(u), ZWJ, ExtPict];
    assert ClassesOf(cls, [GRINNING_FACE, u, JOINER, GRINNING_FACE]) == s;
    assert s[1] == Extend ==> EmojiChain(s, 0, 3);
    assert Joined(s, 1) && Joined(s, 2) && (Joined(s, 3) <==> s[1] == Extend);
    SingleElement(s);
  }

  /** Behind a pictograph and a ZWJ only a pictograph joins, if nothing else would make it (GB11). */
  lemma PictographProbe(len: seq<CodePoint> -> nat, cls: CodePoint -> Class, u: CodePoint)
    requires ProbesAsDocumented(cls) && CountsByRules(len, cls) && !Attaches(cls(u)) && !Breaks(cls(u))
    ensures len([GRINNING_FACE, JOINER, u]) == 1 <==> cls(u) == ExtPict
  {
    var s := [ExtPict, ZWJ, cls(u)];
    assert ClassesOf(cls, [GRINNING_FACE, JOINER, u]) == s;
    assert EmojiChain(s, 0, 2);
    IndicatorParity(s, 2, 2);
    assert Joined(s, 1) && (Joined(s, 2) <==> s[2] == ExtPict);
    SingleElement(s);
  }

  /** The outcomes of all probes of `u`, when its class is `c`. */
  predicate ProbeOutcomes(len: seq<CodePoint> -> nat, u: CodePoint, c: Class) {
    && len([u, COMBINING_GRAVE]) == (if PairJoins(c, Extend) then 1 else 2)
    && len([u, LINE_FEED]) == (if PairJoins(c, LF) then 1 else 2)
    && len([CARRIAGE_RETURN, u]) == (if PairJoins(CR, c) then 1 else 2)
    && len([LATIN_A, u]) == (if PairJoins(Other, c) then 1 else 2)
    && len([u, LATIN_A]) == (if PairJoins(c, Other) then 1 else 2)
    && len([u, INDICATOR_A]) == (if PairJoins(c, RegionalIndicator) then 1 else 2)
    && len([u, JUNGSEONG_FILLER]) == (if PairJoins(c, HangulV) then 1 else 2)
    && len([u, CHOSEONG_KIYEOK]) == (if PairJoins(c, HangulL) then 1 else 2)
    && len([JUNGSEONG_FILLER, u]) == (if PairJoins(HangulV, c) then 1 else 2)
    && len([u, JONGSEONG_KIYEOK]) == (if PairJoins(c, HangulT) then 1 else 2)
    && len([CHOSEONG_KIYEOK, u]) == (if PairJoins(HangulL, c) then 1 else 2)
    && (Attaches(c) ==> (len([GRINNING_FACE, u, GRINNING_FACE]) == 1 <==> c == ZWJ))
    && (c == Extend || c == SpacingMark ==>
          (len([GRINNING_FACE, u, JOINER, GRINNING_FACE]) == 1 <==> c == Extend))
    && (!Attaches(c) && !Breaks(c) ==> (len([GRINNING_FACE, JOINER, u]) == 1 <==> c == ExtPict))
  }

  lemma OutcomesByRules(len: seq<CodePoint> -> nat, cls: CodePoint -> Class, u: CodePoint)
    requires ProbesAsDocumented(cls) && CountsByRules(len, cls)
    ensures ProbeOutcomes(len, u, cls(u))
  {
    PairProbe(len, cls, u, COMBINING_GRAVE);
    PairProbe(len, cls, u, LINE_FEED);
    PairProbe(len, cls, CARRIAGE_RETURN, u);
    PairProbe(len, cls, LATIN_A, u);
    PairProbe(len, cls, u, LATIN_A);
    PairProbe(len, cls, u, INDICATOR_A);
    PairProbe(len, cls, u, JUNGSEONG_FILLER);
    PairProbe(len, cls, u, CHOSEONG_KIYEOK);
    PairProbe(len, cls, JUNGSEONG_FILLER, u);
    PairProbe(len, cls, u, JONGSEONG_KIYEOK);
    PairProbe(len, cls, CHOSEONG_KIYEOK, u);
    if Attaches(cls(u)) {
      JoinerProbe(len, cls, u);
      if cls(u) != ZWJ { ChainProbe(len, cls, u); }
    } else if !Breaks(cls(u)) {
      PictographProbe(len, cls, u);
    }
  }

  lemma ClassifyBreaking(len: seq<CodePoint> -> nat, u: CodePoint, c: Class)
    requires ProbeOutcomes(len, u, c) && (Breaks(c) || Attaches(c))
    ensures Classify(len, u) == c
  {
  }

  lemma ClassifyHangul(len: seq<CodePoint> -> nat, u: CodePoint, c: Class)
    requires ProbeOutcomes(len, u, c) && (c.HangulL? || c.HangulV? || c.HangulT? || c.HangulLV? || c.HangulLVT?)
    ensures Classify(len, u) == c
  {
  }

  lemma ClassifyOthers(len: seq<CodePoint> -> nat, u: CodePoint, c: Class)
    requires ProbeOutcomes(len, u, c) && (c.Other? || c.RegionalIndicator? || c.Prepend? || c.ExtPict?)
    ensures Classify(len, u) == c
  {
  }

  lemma ClassifyFromOutcomes(len: seq<CodePoint> -> nat, u: CodePoint, c: Class)
    requires ProbeOutcomes(len, u, c)
    ensures Classify(len, u) == c
  {
    hide ProbeOutcomes, Classify;
    if Breaks(c) || Attaches(c) {
      ClassifyBreaking(len, u, c);
    } else if c.HangulL? || c.HangulV? || c.HangulT? || c.HangulLV? || c.HangulLVT? {
      ClassifyHangul(len, u, c);
    } else {
      ClassifyOthers(len, u, c);
    }
  }

  /** Probing recovers the class of every code point. */
  lemma ClassifyRecovers(len: seq<CodePoint> -> nat, cls: CodePoint -> Class, u: CodePoint)
    requires ProbesAsDocumented(cls) && CountsByRules(len, cls)
    ensures Classify(len, u) == cls(u)
  {
    OutcomesByRules(len, cls, u);
    ClassifyFromOutcomes(len, u, cls(u));
  }
}
