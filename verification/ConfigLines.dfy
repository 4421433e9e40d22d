/** The two patterns by which the configuration rewriter tells lines apart. */
module ConfigLines {
  import opened Wrappers

  datatype Line = Header(section: string) | Setting(indent: string, key: string) | Plain

  predicate IsSpace(c: char) {
    || c in "\t\n\r \U{B}\U{C}\U{1C}\U{1D}\U{1E}\U{1F}\U{85}\U{A0}\U{1680}\U{2028}\U{2029}\U{202F}\U{205F}\U{3000}"
    || '\U{2000}' <= c <= '\U{200A}'
  }

  predicate IsKeyChar(c: char) {
    'A' <= c <= 'Z' || 'a' <= c <= 'z' || '0' <= c <= '9' || c == '_'
  }

  predicate NotClosing(c: char) {
    c != ']'
  }

  /** The first position from `i` on whose character is not in the class `p`. */
  function Span(p: char -> bool, s: string, i: nat): (j: nat)
    requires i <= |s|
    ensures i <= j <= |s| && (forall k :: i <= k < j ==> p(s[k])) && (j < |s| ==> !p(s[j]))
    decreases |s| - i
  {
    if i < |s| && p(s[i]) then Span(p, s, i + 1) else i
  }

  function ReadHeader(line: string): Option<string> {
    var open := Span(IsSpace, line, 0);
    if open == |line| || line[open] != '[' then None
    else
      var close := Span(NotClosing, line, open + 1);
      if close == open + 1 || close == |line| || Span(IsSpace, line, close + 1) != |line| then None
      else Some(line[open + 1..close])
  }

  /** What the two patterns recognise, the section header first. */
  function Classify(line: string): Line {
    var header := ReadHeader(line);
    if header.Some? then Header(header.value)
    else
      var i := Span(IsSpace, line, 0);
      var j := Span(IsKeyChar, line, i);
      var k := Span(IsSpace, line, j);
      if i == j || k == |line| || line[k] != '=' then Plain else Setting(line[..i], line[i..j])
  }

  predicate Bare(key: string) {
    key != "" && forall i :: 0 <= i < |key| ==> IsKeyChar(key[i])
  }

  lemma ClassifiedKeysAreBare(line: string)
    ensures Classify(line).Setting? ==> Bare(Classify(line).key)
  {
  }

  function Emit(indent: string, key: string, value: string): string {
    indent + key + " = " + value
  }

  predicate NotEquals(c: char) {
    c != '='
  }

  /** The value of a setting line: the text behind its first equals sign, less one space. */
  function ValueIn(line: string): string {
    var k := Span(NotEquals, line, 0);
    if k == |line| then ""
    else
      var rest := line[k + 1..];
      if rest != "" && rest[0] == ' ' then rest[1..] else rest
  }

  lemma CharacterClasses(c: char)
    ensures IsKeyChar(c) ==> !IsSpace(c) && c != '['
    ensures IsSpace(' ') && !IsKeyChar(' ') && !IsSpace('=')
  {
  }

  lemma SpanIs(p: char -> bool, s: string, i: nat, j: nat)
    requires i <= j <= |s| && (forall k :: i <= k < j ==> p(s[k])) && (j < |s| ==> !p(s[j]))
    ensures Span(p, s, i) == j
  {
    assert Span(p, s, i) <= j;
  }

  predicate Spaces(s: string) {
    forall i :: 0 <= i < |s| ==> IsSpace(s[i])
  }

  predicate SectionName(s: string) {
    s != "" && forall i :: 0 <= i < |s| ==> NotClosing(s[i])
  }

  /** A header line: a bracketed name with nothing but space around it. */
  lemma HeaderIff(line: string, name: string)
    ensures ReadHeader(line) == Some(name)
       <==> SectionName(name)
            && exists before, after :: Spaces(before) && Spaces(after) && line == before + "[" + name + "]" + after
  {
    if ReadHeader(line) == Some(name) {
      HeaderParts(line, name);
    }
    forall before, after | SectionName(name) && Spaces(before) && Spaces(after) && line == before + "[" + name + "]" + after
      ensures ReadHeader(line) == Some(name)
    {
      HeaderReads(before, name, after);
    }
  }

  lemma HeaderParts(line: string, name: string)
    requires ReadHeader(line) == Some(name)
    ensures SectionName(name)
            && exists before, after :: Spaces(before) && Spaces(after) && line == before + "[" + name + "]" + after
  {
    hide IsSpace;
    var open := Span(IsSpace, line, 0);
    var close := Span(NotClosing, line, open + 1);
    var before, after := line[..open], line[close + 1..];
    assert Spaces(after) by {
      assert Span(IsSpace, line, close + 1) == |line|;
      assert forall i :: 0 <= i < |after| ==> after[i] == line[close + 1 + i];
    }
    assert Spaces(before);
    assert line == before + "[" + name + "]" + after;
  }

  lemma HeaderReads(before: string, name: string, after: string)
    requires SectionName(name) && Spaces(before) && Spaces(after)
    ensures ReadHeader(before + "[" + name + "]" + after) == Some(name)
  {
    hide IsSpace, Span;
    var line := before + "[" + name + "]" + after;
    var open, close := |before|, |before| + 1 + |name|;
    assert line[open] == '[' && line[close] == ']';
    assert !IsSpace('[') by { BracketIsNoSpace(); }
    assert forall i :: 0 <= i < open ==> line[i] == before[i];
    SpanIs(IsSpace, line, 0, open);
    assert forall i :: open < i < close ==> line[i] == name[i - open - 1];
    SpanIs(NotClosing, line, open + 1, close);
    assert forall i :: close < i < |line| ==> line[i] == after[i - close - 1];
    SpanIs(IsSpace, line, close + 1, |line|);
    assert line[open + 1..close] == name;
  }

  lemma BracketIsNoSpace()
    ensures !IsSpace('[')
  {
  }

  /** A setting line: a bare key with space around it and an equals sign behind it. */
  lemma SettingIff(line: string, indent: string, key: string)
    ensures Classify(line) == Setting(indent, key)
       <==> Spaces(indent) && Bare(key) && exists gap, rest :: Spaces(gap) && line == indent + key + gap + "=" + rest
  {
    if Classify(line) == Setting(indent, key) {
      SettingParts(line, indent, key);
    }
    forall gap, rest | Spaces(indent) && Bare(key) && Spaces(gap) && line == indent + key + gap + "=" + rest
      ensures Classify(line) == Setting(indent, key)
    {
      SettingReads(indent, key, gap, rest);
    }
  }

  lemma SettingParts(line: string, indent: string, key: string)
    requires Classify(line) == Setting(indent, key)
    ensures Spaces(indent) && Bare(key) && exists gap, rest :: Spaces(gap) && line == indent + key + gap + "=" + rest
  {
    hide IsSpace, IsKeyChar;
    var i := Span(IsSpace, line, 0);
    var j := Span(IsKeyChar, line, i);
    var k := Span(IsSpace, line, j);
    var gap, rest := line[j..k], line[k + 1..];
    assert line == indent + key + gap + "=" + rest;
    assert Spaces(gap);
  }

  lemma SettingReads(indent: string, key: string, gap: string, rest: string)
    requires Spaces(indent) && Bare(key) && Spaces(gap)
    ensures Classify(indent + key + gap + "=" + rest) == Setting(indent, key)
  {
    hide IsSpace, IsKeyChar, Span;
    var line := indent + key + gap + "=" + rest;
    var i, j, k := |indent|, |indent| + |key|, |indent| + |key| + |gap|;
    CharacterClasses(key[0]);
    assert line[i] == key[0] && line[k] == '=';
    assert forall n :: 0 <= n < i ==> line[n] == indent[n];
    assert forall n :: i <= n < j ==> line[n] == key[n - i];
    assert forall n :: j <= n < k ==> line[n] == gap[n - j];
    SpanIs(IsSpace, line, 0, i);
    assert !IsKeyChar(line[j]) by { CharacterClasses(line[j]); EqualsIsNoKey(); }
    SpanIs(IsKeyChar, line, i, j);
    SpanIs(IsSpace, line, j, k);
    assert line[..i] == indent && line[i..j] == key;
  }

  /** A rewritten setting with a bare key reads as the same setting with its value. */
  lemma EmittedReadsBack(indent: string, key: string, value: string)
    requires Bare(key) && Spaces(indent)
    ensures Classify(Emit(indent, key, value)) == Setting(indent, key)
    ensures ValueIn(Emit(indent, key, value)) == value
  {
    hide Classify, ValueIn;
    assert Emit(indent, key, value) == indent + key + " " + "=" + (" " + value);
    assert Spaces(" ") by { CharacterClasses(' '); }
    SettingReads(indent, key, " ", " " + value);
    ValueReads(indent, key, value);
  }

  lemma ValueReads(indent: string, key: string, value: string)
    requires Bare(key) && Spaces(indent)
    ensures ValueIn(indent + key + " " + "=" + (" " + value)) == value
  {
    hide IsSpace, IsKeyChar, Span;
    var line, k := indent + key + " " + "=" + (" " + value), |indent| + |key| + 1;
    forall n | 0 <= n < k ensures line[n] != '=' {
      CharacterClasses(line[n]);
      EqualsIsNoKey();
      assert n < |indent| ==> line[n] == indent[n];
      assert |indent| <= n < k - 1 ==> line[n] == key[n - |indent|];
    }
    assert line[k] == '=';
    SpanIs(NotEquals, line, 0, k);
    assert line[k + 1..] == " " + value;
    assert (" " + value)[1..] == value;
  }

  lemma IndentIsSpace(line: string)
    ensures Classify(line).Setting? ==> Spaces(Classify(line).indent)
  {
  }

  lemma EqualsIsNoKey()
    ensures !IsKeyChar('=')
  {
  }
}
