/** The configuration rewriter on whole texts. */
module ConfigText {
  import opened ConfigLines
  import opened ConfigRewrite
  import opened ConfigLaws

  predicate IsBreak(c: char) {
    c in "\n\r\U{B}\U{C}\U{1C}\U{1D}\U{1E}\U{85}\U{2028}\U{2029}"
  }

  predicate NotBreak(c: char) {
    !IsBreak(c)
  }

  predicate Unbroken(s: string) {
    forall i :: 0 <= i < |s| ==> NotBreak(s[i])
  }

  /** The lines of a text, where a carriage return and a newline end one line together. */
  function SplitLines(text: string): (lines: seq<string>)
    ensures forall line :: line in lines ==> Unbroken(line)
    decreases |text|
  {
    if text == "" then []
    else
      var j := Span(NotBreak, text, 0);
      var next := if j == |text| then j else if j + 1 < |text| && text[j] == '\r' && text[j + 1] == '\n' then j + 2 else j + 1;
      [text[..j]] + SplitLines(text[next..])
  }

  /** What ends a line: one break character, or a carriage return and a newline together. */
  ghost predicate Ends(brk: string, rest: string) {
    || brk == "\r\n"
    || (|brk| == 1 && brk[0] in "\n\r\U{B}\U{C}\U{1C}\U{1D}\U{1E}\U{85}\U{2028}\U{2029}"
        && !(brk == "\r" && rest != "" && rest[0] == '\n'))
  }

  /** A text is cut at each break and nowhere else. */
  lemma SplitAtBreak(line: string, brk: string, rest: string)
    requires Unbroken(line)
    ensures Ends(brk, rest) ==> SplitLines(line + brk + rest) == [line] + SplitLines(rest)
    ensures line != "" ==> SplitLines(line) == [line]
  {
    hide IsBreak, SplitLines;
    if line != "" {
      SpanIs(NotBreak, line, 0, |line|);
      CutAt(line, |line|, |line|);
      assert line[..|line|] == line && line[|line|..] == "";
      assert SplitLines("") == [] by { NoLines(); }
    }
    if Ends(brk, rest) {
      var text, n := line + brk + rest, |line|;
      assert text[n] == brk[0] && forall i :: 0 <= i < n ==> text[i] == line[i];
      assert !NotBreak(brk[0]) by { Breaking(brk, rest); }
      SpanIs(NotBreak, text, 0, n);
      assert text[..n] == line && text[n + |brk|..] == rest;
      assert n + 1 < |text| ==> text[n + 1] == (brk + rest)[1];
      CutAt(text, n, n + |brk|);
    }
  }

  lemma NoLines()
    ensures SplitLines("") == []
  {
  }

  lemma Breaking(brk: string, rest: string)
    requires Ends(brk, rest)
    ensures !NotBreak(brk[0])
  {
  }

  lemma CutAt(text: string, j: nat, next: nat)
    requires text != "" && j <= |text| && Span(NotBreak, text, 0) == j
    requires next == if j == |text| then j
                     else if j + 1 < |text| && text[j] == '\r' && text[j + 1] == '\n' then j + 2 else j + 1
    ensures SplitLines(text) == [text[..j]] + SplitLines(text[next..])
  {
  }

  function Joined(lines: seq<string>): string {
    if lines == [] then "" else if |lines| == 1 then lines[0] else lines[0] + "\n" + Joined(lines[1..])
  }

  /** Splitting undoes joining, except that no lines at all read back as one empty line. */
  lemma {:induction false} SplitJoined(lines: seq<string>)
    requires lines != [] && forall line :: line in lines ==> Unbroken(line)
    ensures SplitLines(Joined(lines) + "\n") == lines
  {
    hide IsBreak;
    var text, n := Joined(lines) + "\n", |lines[0]|;
    assert text[..n] == lines[0];
    assert !NotBreak('\n') by { NewlineBreaks(); }
    assert text[n] == '\n' && forall i :: 0 <= i < n ==> text[i] == lines[0][i];
    assert lines[0] in lines;
    SpanIs(NotBreak, text, 0, n);
    if |lines| == 1 {
      assert text[n + 1..] == "";
    } else {
      assert text[n + 1..] == Joined(lines[1..]) + "\n";
      SplitJoined(lines[1..]);
    }
  }

  lemma NewlineBreaks()
    ensures !NotBreak('\n')
  {
  }

  /** Formatted values stay on one line. */
  ghost predicate OneLined(r: Replacements) {
    forall s, e :: e in Entries(r, s) && e.value.Some? ==> Unbroken(e.value.value)
  }

  lemma KeysAreUnbroken(key: string)
    requires Bare(key)
    ensures Unbroken(key)
  {
    forall i | 0 <= i < |key| ensures NotBreak(key[i]) {
      KeyCharIsNoBreak(key[i]);
    }
  }

  lemma KeyCharIsNoBreak(c: char)
    ensures IsKeyChar(c) ==> NotBreak(c)
    ensures NotBreak(' ') && NotBreak('=')
  {
  }

  lemma EmitIsUnbroken(indent: string, key: string, value: string)
    requires Unbroken(indent) && Bare(key) && Unbroken(value)
    ensures Unbroken(Emit(indent, key, value))
  {
    hide IsKeyChar, NotBreak;
    KeysAreUnbroken(key);
    KeyCharIsNoBreak(' ');
    var line := Emit(indent, key, value);
    forall i | 0 <= i < |line| ensures NotBreak(line[i]) {
      var j := i - |indent| - |key|;
      assert line[i] == if i < |indent| then indent[i] else if j < 0 then key[i - |indent|]
                        else if j < 3 then " = "[j] else value[j - 3];
    }
  }

  lemma {:induction false} MissingAreUnbroken(r: Replacements, entries: seq<Entry>, section: string, seen: Seen)
    requires forall e :: e in entries && e.value.Some? ==> Bare(e.key) && Unbroken(e.value.value)
    ensures forall line :: line in Missing(entries, section, seen) ==> Unbroken(line)
  {
    hide Emit, Unbroken, Bare;
    if entries != [] {
      MissingAreUnbroken(r, entries[1..], section, seen);
      if entries[0].value.Some? {
        Nothing();
        EmitIsUnbroken("", entries[0].key, entries[0].value.value);
      }
    }
  }

  lemma Nothing()
    ensures Unbroken("")
  {
  }

  lemma OutputIsUnbroken(r: Replacements, line: string, st: State)
    requires OneLined(r) && Writable(r, st.section) && Unbroken(line)
    ensures forall out :: out in Output(r, line, st) ==> Unbroken(out)
  {
    hide Emit, Entries, Missing, NotBreak, IsKeyChar, IsSpace;
    MissingAreUnbroken(r, Entries(r, st.section), st.section, st.seen);
    match Classify(line)
    case Header(_) =>
    case Plain =>
    case Setting(indent, key) =>
      var e := Find(Entries(r, st.section), key);
      if e.Some? && e.value.value.Some? {
        ClassifiedKeysAreBare(line);
        assert indent <= line;
        EmitIsUnbroken(indent, key, e.value.value.value);
      }
  }

  lemma {:induction false} RewrittenIsUnbroken(r: Replacements, lines: seq<string>, st: State)
    requires OneLined(r) && Readable(r, lines, st.section)
    requires forall line :: line in lines ==> Unbroken(line)
    ensures forall line :: line in Rewritten(r, lines, st) ==> Unbroken(line)
  {
    hide Output, Next, Classify, Writable, Unbroken, Missing, Entries;
    if lines == [] {
      EndIsUnbroken(r, st);
    } else {
      OutputIsUnbroken(r, lines[0], st);
      ReadableRest(r, lines, st);
      RewrittenIsUnbroken(r, lines[1..], Next(r, lines[0], st));
    }
  }

  lemma EndIsUnbroken(r: Replacements, st: State)
    requires OneLined(r) && Writable(r, st.section)
    ensures forall line :: line in MissingIn(r, st) ==> Unbroken(line)
  {
    hide Emit, Entries, Missing, Unbroken, Bare;
    MissingAreUnbroken(r, Entries(r, st.section), st.section, st.seen);
  }

  function RewriteText(r: Replacements, text: string): string {
    Joined(Rewritten(r, SplitLines(text), START)) + "\n"
  }

  /** Rewriting a text twice is rewriting it once. */
  lemma RewriteTextIdempotent(r: Replacements, text: string)
    requires Dictionary(r) && OneLined(r) && Readable(r, SplitLines(text), "")
    ensures RewriteText(r, RewriteText(r, text)) == RewriteText(r, text)
  {
    hide Rewritten, Readable, Dictionary, OneLined, Unbroken, SplitLines;
    var lines := SplitLines(text);
    var out := Rewritten(r, lines, START);
    RewrittenIsUnbroken(r, lines, START);
    RewrittenStays(r, lines, START, START);
    if out == [] {
      EmptyLine(r);
      assert "" + "\n" == "\n";
      assert RewriteText(r, text) == "\n";
    } else {
      SplitJoined(out);
    }
  }

  lemma EmptyLine(r: Replacements)
    requires Rewritten(r, [], START) == []
    ensures SplitLines("\n") == [""] && Rewritten(r, [""], START) == [""]
  {
    NewlineBreaks();
    SpanIs(NotBreak, "\n", 0, 0);
    assert "\n"[1..] == "" && "\n"[..0] == "";
    assert Classify("") == Plain;
    assert [""][1..] == [];
  }
}
