/** What the configuration rewriter guarantees for every text and all replacements. */
module ConfigLaws {
  import opened Wrappers
  import opened ConfigLines
  import opened ConfigRewrite

  /** The keys to be written into `section` are bare, so that written lines read back. */
  ghost predicate Writable(r: Replacements, section: string) {
    forall e :: e in Entries(r, section) && e.value.Some? ==> Bare(e.key)
  }

  /** The same for the current section and all sections that follow. */
  ghost predicate Readable(r: Replacements, lines: seq<string>, section: string) {
    Writable(r, section) && forall line :: line in lines && Classify(line).Header? ==> Writable(r, Classify(line).section)
  }

  lemma ReadableRest(r: Replacements, lines: seq<string>, st: State)
    requires Readable(r, lines, st.section) && lines != []
    ensures Readable(r, lines[1..], Next(r, lines[0], st).section)
  {
    hide Classify, Find, Entries, Marked;
  }

  lemma {:induction false} FindListed(entries: seq<Entry>, e: Entry)
    requires e in entries && forall i, j :: 0 <= i < j < |entries| ==> entries[i].key != entries[j].key
    ensures Find(entries, e.key) == Some(e)
  {
    if entries[0] != e {
      var i :| 0 <= i < |entries| && entries[i] == e;
      FindListed(entries[1..], e);
    }
  }

  // ----- appended lines -----

  lemma {:induction false} NoneMissing(entries: seq<Entry>, section: string, seen: Seen)
    requires Marked(entries, section) <= seen
    ensures Missing(entries, section, seen) == []
  {
    if entries != [] {
      MarkedHead(entries, section);
      NoneMissing(entries[1..], section, seen);
    }
  }

  lemma MarkedHead(entries: seq<Entry>, section: string)
    requires entries != []
    ensures Marked(entries, section)
         == Marked(entries[1..], section) + if entries[0].value.Some? then {(section, entries[0].key)} else {}
  {
    assert entries == [entries[0]] + entries[1..];
  }

  ghost predicate Listed(r: Replacements, entries: seq<Entry>, section: string) {
    forall e :: e in entries && e.value.Some? ==> Bare(e.key) && Find(Entries(r, section), e.key) == Some(e)
  }

  /** An appended line is a setting of its section, and rewriting leaves it as it is. */
  lemma AppendedLine(r: Replacements, e: Entry, st: State)
    requires e.value.Some? && Bare(e.key) && Find(Entries(r, st.section), e.key) == Some(e)
    ensures var line := Emit("", e.key, e.value.value);
            Classify(line) == Setting("", e.key)
            && Output(r, line, st) == [line]
            && Next(r, line, st) == st.(seen := st.seen + {(st.section, e.key)})
  {
    hide Classify, Emit, Find, Entries;
    EmittedReadsBack("", e.key, e.value.value);
  }

  /** The state after the appended lines were read. */
  ghost function AfterAppended(entries: seq<Entry>, seen: Seen, st: State): (after: State) {
    if entries == [] then st
    else if entries[0].value.Some? && (st.section, entries[0].key) !in seen then
      AfterAppended(entries[1..], seen, st.(seen := st.seen + {(st.section, entries[0].key)}))
    else AfterAppended(entries[1..], seen, st)
  }

  lemma {:induction false} AppendedAreSeen(entries: seq<Entry>, seen: Seen, st: State)
    ensures AfterAppended(entries, seen, st) == st.(seen := st.seen + (Marked(entries, st.section) - seen))
  {
    hide Marked;
    if entries == [] {
      NothingMarked(st.section);
      assert st.seen == st.seen + ({} - seen);
    } else {
      MarkedHead(entries, st.section);
      var key := (st.section, entries[0].key);
      AppendedAreSeen(entries[1..], seen, if entries[0].value.Some? && key !in seen then st.(seen := st.seen + {key}) else st);
      if entries[0].value.Some? && key !in seen {
        assert st.seen + {key} + (Marked(entries[1..], st.section) - seen) == st.seen + (Marked(entries, st.section) - seen);
      } else {
        assert Marked(entries[1..], st.section) - seen == Marked(entries, st.section) - seen;
      }
    }
  }

  /** Rewriting appended lines leaves them as they are. */
  lemma {:induction false} AppendedStay(r: Replacements, entries: seq<Entry>, seen: Seen, rest: seq<string>, st: State)
    requires Listed(r, entries, st.section)
    ensures Rewritten(r, Missing(entries, st.section, seen) + rest, st)
         == Missing(entries, st.section, seen) + Rewritten(r, rest, AfterAppended(entries, seen, st))
  {
    hide Classify, Emit, Find, Entries, Output, Next, MissingIn;
    var m := Missing(entries, st.section, seen);
    if entries == [] {
      assert m + rest == rest;
    } else if entries[0].value.Some? && (st.section, entries[0].key) !in seen {
      var next := st.(seen := st.seen + {(st.section, entries[0].key)});
      AppendedLine(r, entries[0], st);
      assert (m + rest)[0] == m[0] && (m + rest)[1..] == m[1..] + rest;
      AppendedStay(r, entries[1..], seen, rest, next);
    } else {
      AppendedStay(r, entries[1..], seen, rest, st);
    }
  }

  lemma EntriesListed(r: Replacements, section: string)
    requires Dictionary(r) && Writable(r, section)
    ensures Listed(r, Entries(r, section), section)
  {
    hide Bare;
    forall e | e in Entries(r, section) && e.value.Some? ensures Bare(e.key) && Find(Entries(r, section), e.key) == Some(e) {
      FindListed(Entries(r, section), e);
    }
  }

  // ----- idempotence -----

  /** The two sets agree on all keys that have a value. */
  ghost predicate Agree(r: Replacements, a: Seen, b: Seen) {
    forall s, x :: x in Marked(Entries(r, s), s) ==> (x in a <==> x in b)
  }

  lemma AgreeAfterHeader(r: Replacements, section: string, a: Seen, b: Seen)
    requires Agree(r, a, b)
    ensures var m := Marked(Entries(r, section), section);
            m <= b + (m - a) && Agree(r, a + m, b + (m - a) + m)
  {
    hide Marked, Entries;
  }

  lemma NullIsUnmarked(r: Replacements, section: string, e: Entry, s: string)
    requires Dictionary(r) && e in Entries(r, section) && e.value.None?
    ensures (section, e.key) !in Marked(Entries(r, s), s)
  {
    if (section, e.key) in Marked(Entries(r, s), s) {
      var d :| d in Entries(r, s) && d.value.Some? && (s, d.key) == (section, e.key);
      FindListed(Entries(r, s), d);
      FindListed(Entries(r, s), e);
    }
  }

  /** Reading a written line again, or skipping a removed one, keeps the states in step. */
  lemma SameLine(r: Replacements, line: string, st: State, st2: State)
    requires Dictionary(r) && st.section == st2.section && Agree(r, st.seen, st2.seen) && !Classify(line).Header?
    ensures Output(r, line, st) == [] ==> Agree(r, Next(r, line, st).seen, st2.seen)
    ensures Output(r, line, st) != [] ==>
              |Output(r, line, st)| == 1
              && Output(r, Output(r, line, st)[0], st2) == Output(r, line, st)
              && Next(r, Output(r, line, st)[0], st2).section == st.section
              && Agree(r, Next(r, line, st).seen, Next(r, Output(r, line, st)[0], st2).seen)
    ensures Next(r, line, st).section == st.section
  {
    hide Classify, Emit, Entries, Marked, Bare, IsSpace;
    match Classify(line)
    case Plain =>
    case Setting(indent, key) =>
      var e := Find(Entries(r, st.section), key);
      if e.Some? && e.value.value.Some? {
        ClassifiedKeysAreBare(line);
        IndentIsSpace(line);
        EmittedReadsBack(indent, key, e.value.value.value);
      } else if e.Some? {
        forall s ensures (st.section, key) !in Marked(Entries(r, s), s) {
          NullIsUnmarked(r, st.section, e.value, s);
        }
      }
  }

  /** Rewriting rewritten lines changes nothing, from any two states that agree on what was seen. */
  lemma {:induction false} RewrittenStays(r: Replacements, lines: seq<string>, st: State, st2: State)
    requires Dictionary(r) && Readable(r, lines, st.section)
    requires st.section == st2.section && Agree(r, st.seen, st2.seen)
    ensures Rewritten(r, Rewritten(r, lines, st), st2) == Rewritten(r, lines, st)
  {
    hide Classify, Emit, Entries, Marked, Output, Next, Agree, Missing, Writable, Dictionary;
    if lines == [] {
      EndStays(r, st, st2);
    } else {
      var line, next := lines[0], Next(r, lines[0], st);
      var rest := Rewritten(r, lines[1..], next);
      ReadableRest(r, lines, st);
      if Classify(line).Header? {
        var after := HeaderStays(r, line, rest, st, st2);
        RewrittenStays(r, lines[1..], next, after);
      } else {
        SameLine(r, line, st, st2);
        var out := Output(r, line, st);
        if out == [] {
          assert out + rest == rest;
          RewrittenStays(r, lines[1..], next, st2);
        } else {
          assert (out + rest)[0] == out[0] && (out + rest)[1..] == rest;
          RewrittenStays(r, lines[1..], next, Next(r, out[0], st2));
        }
      }
    }
  }

  lemma EndStays(r: Replacements, st: State, st2: State)
    requires Dictionary(r) && Writable(r, st.section) && st.section == st2.section && Agree(r, st.seen, st2.seen)
    ensures Rewritten(r, MissingIn(r, st), st2) == MissingIn(r, st)
  {
    hide Classify, Emit, Output, Next, Missing, Agree, Entries, Marked, Writable, Dictionary, Listed;
    var entries, m := Entries(r, st.section), MissingIn(r, st);
    EntriesListed(r, st.section);
    AppendedStay(r, entries, st.seen, [], st2);
    AppendedAreSeen(entries, st.seen, st2);
    AgreeAfterHeader(r, st.section, st.seen, st2.seen);
    NoneMissing(entries, st.section, AfterAppended(entries, st.seen, st2).seen);
    assert m + [] == m;
  }

  lemma HeaderStays(r: Replacements, line: string, rest: seq<string>, st: State, st2: State) returns (after: State)
    requires Dictionary(r) && Writable(r, st.section) && Classify(line).Header?
    requires st.section == st2.section && Agree(r, st.seen, st2.seen)
    ensures Rewritten(r, Output(r, line, st) + rest, st2) == Output(r, line, st) + Rewritten(r, rest, after)
    ensures after.section == Next(r, line, st).section && Agree(r, Next(r, line, st).seen, after.seen)
  {
    hide Classify, Emit, Missing, Agree, Entries, Marked, Writable, Dictionary, Listed;
    var entries, m := Entries(r, st.section), MissingIn(r, st);
    var mid := AfterAppended(entries, st.seen, st2);
    EntriesListed(r, st.section);
    AppendedStay(r, entries, st.seen, [line] + rest, st2);
    AppendedAreSeen(entries, st.seen, st2);
    AgreeAfterHeader(r, st.section, st.seen, st2.seen);
    NoneMissing(entries, st.section, mid.seen);
    after := Next(r, line, mid);
    assert ([line] + rest)[1..] == rest;
    assert m + [line] + rest == m + ([line] + rest);
  }

  // ----- what the output holds -----

  /** A setting of a replaced key, with the section it stands in. */
  datatype Assignment = Assignment(section: string, indent: string, key: string, line: string)

  ghost function SectionAfter(line: string, section: string): string {
    if Classify(line).Header? then Classify(line).section else section
  }

  ghost predicate Replaced(r: Replacements, line: string, section: string) {
    Classify(line).Setting? && Find(Entries(r, section), Classify(line).key).Some?
  }

  ghost function Assignments(r: Replacements, lines: seq<string>, section: string): seq<Assignment> {
    if lines == [] then []
    else
      var line, rest := lines[0], Assignments(r, lines[1..], SectionAfter(lines[0], section));
      if Replaced(r, line, section)
      then [Assignment(section, Classify(line).indent, Classify(line).key, line)] + rest
      else rest
  }

  /** All lines but the settings of replaced keys. */
  ghost function Others(r: Replacements, lines: seq<string>, section: string): seq<string> {
    if lines == [] then []
    else
      var line, rest := lines[0], Others(r, lines[1..], SectionAfter(lines[0], section));
      if Replaced(r, line, section) then rest else [line] + rest
  }

  /** The settings that the rewriter appends. */
  ghost function Appended(entries: seq<Entry>, section: string, seen: Seen): seq<Assignment> {
    if entries == [] then []
    else
      var e, rest := entries[0], Appended(entries[1..], section, seen);
      if e.value.Some? && (section, e.key) !in seen
      then [Assignment(section, "", e.key, Emit("", e.key, e.value.value))] + rest
      else rest
  }

  lemma {:induction false} AppendedAreAssignments(
    r: Replacements, entries: seq<Entry>, st: State, rest: seq<string>)
    requires Listed(r, entries, st.section)
    ensures Assignments(r, Missing(entries, st.section, st.seen) + rest, st.section)
         == Appended(entries, st.section, st.seen) + Assignments(r, rest, st.section)
    ensures Others(r, Missing(entries, st.section, st.seen) + rest, st.section) == Others(r, rest, st.section)
  {
    hide Classify, Emit, Find, Entries, Bare;
    var m := Missing(entries, st.section, st.seen);
    if entries == [] {
      assert m + rest == rest;
    } else {
      AppendedAreAssignments(r, entries[1..], st, rest);
      if entries[0].value.Some? && (st.section, entries[0].key) !in st.seen {
        AppendedLine(r, entries[0], st);
        assert (m + rest)[0] == m[0] && (m + rest)[1..] == m[1..] + rest;
      }
    }
  }

  /** The settings that the rewriter writes for one line. */
  ghost function WrittenFor(r: Replacements, line: string, st: State): seq<Assignment> {
    match Classify(line)
    case Header(_) => Appended(Entries(r, st.section), st.section, st.seen)
    case Setting(indent, key) =>
      var e := Find(Entries(r, st.section), key);
      if e.Some? && e.value.value.Some?
      then [Assignment(st.section, indent, key, Emit(indent, key, e.value.value.value))]
      else []
    case Plain => []
  }

  /** The settings that the rewriter writes, in order. */
  ghost function Written(r: Replacements, lines: seq<string>, st: State): seq<Assignment> {
    if lines == [] then Appended(Entries(r, st.section), st.section, st.seen)
    else WrittenFor(r, lines[0], st) + Written(r, lines[1..], Next(r, lines[0], st))
  }

  lemma OneLine(r: Replacements, line: string, st: State, rest: seq<string>)
    requires !Classify(line).Header?
    ensures var out := Output(r, line, st);
            Others(r, out + rest, st.section)
            == (if Replaced(r, line, st.section) then [] else [line]) + Others(r, rest, st.section)
    ensures Assignments(r, Output(r, line, st) + rest, st.section)
            == WrittenFor(r, line, st) + Assignments(r, rest, st.section)
    ensures Next(r, line, st).section == st.section
  {
    hide Classify, Emit, Entries, Marked, Bare, IsSpace;
    var out := Output(r, line, st);
    if out == [] {
      assert out + rest == rest;
    } else {
      assert (out + rest)[0] == out[0] && (out + rest)[1..] == rest;
      if Replaced(r, line, st.section) {
        ClassifiedKeysAreBare(line);
        IndentIsSpace(line);
        EmittedReadsBack(Classify(line).indent, Classify(line).key, Find(Entries(r, st.section), Classify(line).key).value.value.value);
      }
    }
  }

  lemma HeaderLine(r: Replacements, line: string, st: State, rest: seq<string>)
    requires Dictionary(r) && Writable(r, st.section) && Classify(line).Header?
    ensures Others(r, Output(r, line, st) + rest, st.section) == [line] + Others(r, rest, Classify(line).section)
    ensures Assignments(r, Output(r, line, st) + rest, st.section)
            == WrittenFor(r, line, st) + Assignments(r, rest, Classify(line).section)
    ensures Next(r, line, st).section == Classify(line).section && !Replaced(r, line, st.section)
  {
    hide Classify, Emit, Entries, Marked, Missing, Writable, Dictionary, Listed, Find, Appended;
    EntriesListed(r, st.section);
    AppendedAreAssignments(r, Entries(r, st.section), st, [line] + rest);
    assert MissingIn(r, st) + [line] + rest == MissingIn(r, st) + ([line] + rest);
    assert ([line] + rest)[1..] == rest;
  }

  /** All other lines survive in order, and the replaced settings are those the rewriter wrote. */
  lemma {:induction false} LinesOfOutput(r: Replacements, lines: seq<string>, st: State)
    requires Dictionary(r) && Readable(r, lines, st.section)
    ensures Others(r, Rewritten(r, lines, st), st.section) == Others(r, lines, st.section)
    ensures Assignments(r, Rewritten(r, lines, st), st.section) == Written(r, lines, st)
  {
    hide Classify, Emit, Entries, Marked, Missing, Writable, Dictionary, Listed, Find, Appended, Output, Next, Replaced;
    if lines == [] {
      EntriesListed(r, st.section);
      AppendedAreAssignments(r, Entries(r, st.section), st, []);
      assert MissingIn(r, st) + [] == MissingIn(r, st);
    } else {
      var line, next := lines[0], Next(r, lines[0], st);
      var rest := Rewritten(r, lines[1..], next);
      ReadableRest(r, lines, st);
      LinesOfOutput(r, lines[1..], next);
      if Classify(line).Header? {
        HeaderLine(r, line, st, rest);
      } else {
        OneLine(r, line, st, rest);
      }
    }
  }

  /** The line sets its key to the value that the dictionary has for it in this section. */
  ghost predicate Exact(r: Replacements, a: Assignment) {
    var e := Find(Entries(r, a.section), a.key);
    && e.Some? && e.value.value.Some?
    && Classify(a.line) == Setting(a.indent, a.key) && ValueIn(a.line) == e.value.value.value
  }

  lemma {:induction false} AppendedAreExact(r: Replacements, entries: seq<Entry>, section: string, seen: Seen)
    requires Listed(r, entries, section)
    ensures forall a :: a in Appended(entries, section, seen) ==> Exact(r, a)
    ensures forall e :: e in entries && e.value.Some? && (section, e.key) !in seen ==>
              Assignment(section, "", e.key, Emit("", e.key, e.value.value)) in Appended(entries, section, seen)
  {
    hide Emit, Find, Entries, Bare, Exact;
    if entries != [] {
      var e := entries[0];
      AppendedAreExact(r, entries[1..], section, seen);
      assert entries == [e] + entries[1..];
      if e.value.Some? {
        NoIndent();
        LineIsExact(r, section, "", e);
      }
    }
  }

  lemma NoIndent()
    ensures Spaces("")
  {
  }

  lemma LineIsExact(r: Replacements, section: string, indent: string, e: Entry)
    requires Find(Entries(r, section), e.key) == Some(e) && e.value.Some? && Bare(e.key) && Spaces(indent)
    ensures Exact(r, Assignment(section, indent, e.key, Emit(indent, e.key, e.value.value)))
  {
    hide Find, Entries, Bare, Classify, Emit, ValueIn;
    EmittedReadsBack(indent, e.key, e.value.value);
  }

  lemma WrittenLineIsExact(r: Replacements, line: string, st: State)
    requires Listed(r, Entries(r, st.section), st.section)
    ensures forall a :: a in WrittenFor(r, line, st) ==> Exact(r, a)
  {
    hide Classify, Emit, Entries, Find, Appended, Exact, Listed;
    AppendedAreExact(r, Entries(r, st.section), st.section, st.seen);
    match Classify(line)
    case Header(_) =>
    case Plain =>
    case Setting(indent, key) =>
      var e := Find(Entries(r, st.section), key);
      if e.Some? && e.value.value.Some? {
        ClassifiedKeysAreBare(line);
        IndentIsSpace(line);
        LineIsExact(r, st.section, indent, e.value);
      }
  }

  /** Every setting written carries exactly the replacement value; removed keys are not written. */
  lemma {:induction false} WrittenIsExact(r: Replacements, lines: seq<string>, st: State)
    requires Dictionary(r) && Readable(r, lines, st.section)
    ensures forall a :: a in Written(r, lines, st) ==> Exact(r, a)
  {
    hide Classify, Emit, Entries, Marked, Writable, Dictionary, Listed, Find, Appended, Exact, WrittenFor;
    EntriesListed(r, st.section);
    AppendedAreExact(r, Entries(r, st.section), st.section, st.seen);
    if lines != [] {
      WrittenLineIsExact(r, lines[0], st);
      ReadableRest(r, lines, st);
      WrittenIsExact(r, lines[1..], Next(r, lines[0], st));
    }
  }

  ghost predicate Visits(lines: seq<string>, section: string, s: string) {
    s == section || exists line :: line in lines && Classify(line) == Header(s)
  }

  lemma VisitsNothing(section: string, s: string)
    ensures Visits([], section, s) ==> s == section
  {
  }

  lemma VisitsRest(lines: seq<string>, section: string, s: string)
    requires lines != [] && Visits(lines, section, s)
    ensures s == section || Visits(lines[1..], SectionAfter(lines[0], section), s)
    ensures !Classify(lines[0]).Header? ==> Visits(lines[1..], section, s)
  {
    hide Classify;
    if s != section {
      var line :| line in lines && Classify(line) == Header(s);
      assert line == lines[0] || line in lines[1..];
    }
  }

  ghost predicate Sets(written: seq<Assignment>, section: string, key: string) {
    exists a :: a in written && a.section == section && a.key == key
  }

  lemma SetsMore(more: seq<Assignment>, written: seq<Assignment>, section: string, key: string)
    requires Sets(more, section, key) || Sets(written, section, key)
    ensures Sets(more + written, section, key)
  {
    var a :| (a in more || a in written) && a.section == section && a.key == key;
    assert a in more + written;
  }

  /** Every key with a value is set in every section that the text visits. */
  lemma {:induction false} WrittenIsComplete(r: Replacements, lines: seq<string>, st: State, s: string, e: Entry)
    requires Dictionary(r) && Readable(r, lines, st.section) && Visits(lines, st.section, s)
    requires e in Entries(r, s) && e.value.Some? && (s, e.key) !in st.seen
    ensures Sets(Written(r, lines, st), s, e.key)
  {
    hide Classify, Emit, Entries, Writable, Dictionary, Listed, Find, Appended, Visits, Sets;
    VisitsNothing(st.section, s);
    var here := Appended(Entries(r, st.section), st.section, st.seen);
    if s == st.section {
      EntriesListed(r, s);
      AppendedSets(r, s, st.seen, e);
    }
    if lines != [] {
      var line, next := lines[0], Next(r, lines[0], st);
      var rest := Written(r, lines[1..], next);
      VisitsRest(lines, st.section, s);
      ReadableRest(r, lines, st);
      match Classify(line)
      case Header(_) =>
        if s != st.section {
          WrittenIsComplete(r, lines[1..], next, s, e);
        }
        SetsMore(here, rest, s, e.key);
      case Plain =>
        WrittenIsComplete(r, lines[1..], next, s, e);
        assert [] + rest == rest;
      case Setting(indent, key) =>
        if (st.section, key) == (s, e.key) {
          FindEntry(r, s, e);
          var a := Assignment(s, indent, key, Emit(indent, key, e.value.value));
          SetsOne(a);
          SetsMore([a], rest, s, e.key);
        } else {
          WrittenIsComplete(r, lines[1..], next, s, e);
          SetsMore(Written(r, lines, st)[..|Written(r, lines, st)| - |rest|], rest, s, e.key);
        }
    }
  }

  lemma SetsOne(a: Assignment)
    ensures Sets([a], a.section, a.key)
  {
    assert a in [a];
  }

  lemma FindEntry(r: Replacements, s: string, e: Entry)
    requires Dictionary(r) && e in Entries(r, s)
    ensures Find(Entries(r, s), e.key) == Some(e)
  {
    FindListed(Entries(r, s), e);
  }

  lemma AppendedSets(r: Replacements, s: string, seen: Seen, e: Entry)
    requires Listed(r, Entries(r, s), s) && e in Entries(r, s) && e.value.Some? && (s, e.key) !in seen
    ensures Sets(Appended(Entries(r, s), s, seen), s, e.key)
  {
    hide Appended, Emit, Entries, Find, Bare;
    AppendedAreExact(r, Entries(r, s), s, seen);
  }

  /** What a rewritten text holds: exactly the replacement values, each of them, and all other lines in order. */
  lemma RewriteIsCorrect(r: Replacements, lines: seq<string>)
    requires Dictionary(r) && Readable(r, lines, "")
    ensures var out := Rewritten(r, lines, START);
            && Others(r, out, "") == Others(r, lines, "")
            && (forall a :: a in Assignments(r, out, "") ==> Exact(r, a))
            && (forall s, e :: Visits(lines, "", s) && e in Entries(r, s) && e.value.Some? ==>
                  Sets(Assignments(r, out, ""), s, e.key))
  {
    hide Classify, Emit, Entries, Exact, Visits, Sets, Others, Assignments, Written, Rewritten, Readable, Dictionary;
    LinesOfOutput(r, lines, START);
    WrittenIsExact(r, lines, START);
    forall s, e | Visits(lines, "", s) && e in Entries(r, s) && e.value.Some?
      ensures Sets(Assignments(r, Rewritten(r, lines, START), ""), s, e.key)
    {
      WrittenIsComplete(r, lines, START, s, e);
    }
  }

  // ----- exactly when rewriting is idempotent -----

  /** The line is a setting of a key that is to be removed from the section. */
  ghost predicate Removed(r: Replacements, line: string, section: string) {
    Replaced(r, line, section) && Find(Entries(r, section), Classify(line).key).value.value.None?
  }

  /** What is written into `section` reads neither as a header nor as a setting of a key removed there. */
  ghost predicate Inert(r: Replacements, section: string) {
    forall e :: e in Entries(r, section) && e.value.Some? ==> InertLine(r, Emit("", e.key, e.value.value), section)
  }

  ghost predicate InertLine(r: Replacements, line: string, section: string) {
    !Classify(line).Header? && !Removed(r, line, section)
  }

  /** The same for the current section and all sections that follow. */
  ghost predicate Harmless(r: Replacements, lines: seq<string>, section: string) {
    Inert(r, section) && forall line :: line in lines && Classify(line).Header? ==> Inert(r, Classify(line).section)
  }

  lemma HarmlessRest(r: Replacements, lines: seq<string>, st: State)
    requires Harmless(r, lines, st.section) && lines != []
    ensures Harmless(r, lines[1..], Next(r, lines[0], st).section)
  {
    hide Classify, Find, Entries, Marked, Inert;
  }

  /** No line is a setting of a key that is to be removed. */
  ghost predicate NothingRemoved(r: Replacements, lines: seq<string>, section: string) {
    lines != [] ==> !Removed(r, lines[0], section) && NothingRemoved(r, lines[1..], SectionAfter(lines[0], section))
  }

  lemma {:induction false} AppendedRemain(r: Replacements, entries: seq<Entry>, section: string, seen: Seen, rest: seq<string>)
    requires forall e :: e in entries && e.value.Some? ==> InertLine(r, Emit("", e.key, e.value.value), section)
    requires NothingRemoved(r, rest, section)
    ensures NothingRemoved(r, Missing(entries, section, seen) + rest, section)
  {
    hide Classify, Emit, Removed;
    var m := Missing(entries, section, seen);
    if entries == [] {
      assert m + rest == rest;
    } else {
      AppendedRemain(r, entries[1..], section, seen, rest);
      var tail := Missing(entries[1..], section, seen);
      if m != tail {
        assert (m + rest)[0] == m[0] && (m + rest)[1..] == tail + rest;
      }
    }
  }

  lemma LineRemains(r: Replacements, line: string, st: State, rest: seq<string>)
    requires !Classify(line).Header? && NothingRemoved(r, rest, st.section)
    ensures NothingRemoved(r, Output(r, line, st) + rest, st.section)
  {
    hide Classify, Emit, Entries, Bare, IsSpace;
    var out := Output(r, line, st);
    if out == [] {
      assert out + rest == rest;
    } else {
      assert (out + rest)[0] == out[0] && (out + rest)[1..] == rest;
      if Replaced(r, line, st.section) {
        ClassifiedKeysAreBare(line);
        IndentIsSpace(line);
        EmittedReadsBack(Classify(line).indent, Classify(line).key,
                         Find(Entries(r, st.section), Classify(line).key).value.value.value);
      }
    }
  }

  lemma HeaderRemains(r: Replacements, line: string, st: State, rest: seq<string>)
    requires Classify(line).Header? && Inert(r, st.section) && NothingRemoved(r, rest, Classify(line).section)
    ensures NothingRemoved(r, Output(r, line, st) + rest, st.section)
  {
    hide Classify, Emit, Entries, InertLine;
    assert ([line] + rest)[1..] == rest;
    AppendedRemain(r, Entries(r, st.section), st.section, st.seen, [line] + rest);
    assert MissingIn(r, st) + [line] + rest == MissingIn(r, st) + ([line] + rest);
  }

  /** Rewritten lines hold nothing that another rewriting would remove. */
  lemma {:induction false} OutputRemains(r: Replacements, lines: seq<string>, st: State)
    requires Harmless(r, lines, st.section)
    ensures NothingRemoved(r, Rewritten(r, lines, st), st.section)
  {
    hide Classify, Emit, Entries, Missing, Inert, Output;
    if lines == [] {
      EndRemains(r, st);
    } else {
      HarmlessRest(r, lines, st);
      OutputRemains(r, lines[1..], Next(r, lines[0], st));
      if Classify(lines[0]).Header? {
        HeaderRemains(r, lines[0], st, Rewritten(r, lines[1..], Next(r, lines[0], st)));
      } else {
        LineRemains(r, lines[0], st, Rewritten(r, lines[1..], Next(r, lines[0], st)));
      }
    }
  }

  lemma EndRemains(r: Replacements, st: State)
    requires Inert(r, st.section)
    ensures NothingRemoved(r, MissingIn(r, st), st.section)
  {
    hide Classify, Emit, Entries, InertLine;
    AppendedRemain(r, Entries(r, st.section), st.section, st.seen, []);
    assert MissingIn(r, st) + [] == MissingIn(r, st);
  }

  lemma {:induction false} MissingKey(entries: seq<Entry>, section: string, seen: Seen, e: Entry)
    requires e in entries && e.value.Some? && (section, e.key) !in seen
    ensures 1 <= |Missing(entries, section, seen)|
  {
    if entries[0] != e {
      MissingKey(entries[1..], section, seen, e);
    }
  }

  lemma {:induction false} NotShorter(r: Replacements, lines: seq<string>, st: State)
    requires NothingRemoved(r, lines, st.section)
    ensures |lines| <= |Rewritten(r, lines, st)|
  {
    hide Classify, Emit, Entries, Marked, Missing;
    if lines != [] {
      NotShorter(r, lines[1..], Next(r, lines[0], st));
    }
  }

  /** A key that does not read back is appended however often it already stands there. */
  lemma {:induction false} UnreadableGrows(r: Replacements, lines: seq<string>, st: State, s: string, e: Entry)
    requires NothingRemoved(r, lines, st.section) && Visits(lines, st.section, s)
    requires e in Entries(r, s) && e.value.Some? && !Bare(e.key) && (s, e.key) !in st.seen
    ensures |lines| < |Rewritten(r, lines, st)|
  {
    hide Classify, Emit, Entries, Missing, Bare, Visits, Find;
    VisitsNothing(st.section, s);
    if s == st.section {
      MissingKey(Entries(r, s), s, st.seen, e);
    }
    if lines != [] {
      var line, next := lines[0], Next(r, lines[0], st);
      VisitsRest(lines, st.section, s);
      ClassifiedKeysAreBare(line);
      NotShorter(r, lines[1..], next);
      if s != st.section || !Classify(line).Header? {
        UnreadableGrows(r, lines[1..], next, s, e);
      }
    }
  }

  lemma {:induction false} HeadersSurvive(r: Replacements, lines: seq<string>, st: State, line: string)
    requires line in lines && Classify(line).Header?
    ensures line in Rewritten(r, lines, st)
  {
    hide Classify, Emit, Entries, Marked, Missing;
    if lines[0] != line {
      HeadersSurvive(r, lines[1..], Next(r, lines[0], st), line);
    }
  }

  ghost predicate Idempotent(r: Replacements, lines: seq<string>) {
    Rewritten(r, Rewritten(r, lines, START), START) == Rewritten(r, lines, START)
  }

  /** As long as nothing written reads as a header or as a key to be removed, rewriting twice is rewriting
      once exactly when the keys written into the visited sections are bare. */
  lemma IdempotentIff(r: Replacements, lines: seq<string>)
    requires Dictionary(r) && Harmless(r, lines, "")
    ensures Idempotent(r, lines) <==> Readable(r, lines, "")
  {
    hide Classify, Entries, Bare, Rewritten, Harmless;
    if Readable(r, lines, "") {
      RewrittenStays(r, lines, START, START);
    } else {
      var s := UnreadableSection(r, lines, "");
      var e :| e in Entries(r, s) && e.value.Some? && !Bare(e.key);
      VisitsOutput(r, lines, s);
      OutputRemains(r, lines, START);
      UnreadableGrows(r, Rewritten(r, lines, START), START, s, e);
    }
  }

  /** Bare keys are always harmless, whatever is to be removed beside them. */
  lemma BareIsHarmless(r: Replacements, lines: seq<string>, section: string)
    requires Dictionary(r) && Readable(r, lines, section)
    ensures Harmless(r, lines, section)
  {
    hide Classify, Inert, Writable;
    forall s | Writable(r, s) ensures Inert(r, s) {
      BareIsInert(r, s);
    }
  }

  lemma BareIsInert(r: Replacements, s: string)
    requires Dictionary(r) && Writable(r, s)
    ensures Inert(r, s)
  {
    hide Classify, Emit, Entries, Bare, Find, Output, Next;
    EntriesListed(r, s);
    forall e | e in Entries(r, s) && e.value.Some? ensures InertLine(r, Emit("", e.key, e.value.value), s) {
      AppendedLine(r, e, State(s, {}));
    }
  }

  lemma UnreadableSection(r: Replacements, lines: seq<string>, section: string) returns (s: string)
    requires !Readable(r, lines, section)
    ensures Visits(lines, section, s) && !Writable(r, s)
  {
    hide Classify, Writable;
    s := section;
    if Writable(r, section) {
      var line :| line in lines && Classify(line).Header? && !Writable(r, Classify(line).section);
      s := Classify(line).section;
    }
  }

  lemma VisitsOutput(r: Replacements, lines: seq<string>, s: string)
    requires Visits(lines, "", s)
    ensures Visits(Rewritten(r, lines, START), "", s)
  {
    hide Classify, Rewritten;
    if s != "" {
      var line :| line in lines && Classify(line) == Header(s);
      HeadersSurvive(r, lines, START, line);
    }
  }

  // ----- what the conditions exclude -----

  /** A dashed key makes even the empty text grow with every run. */
  lemma DashedKeyGrows()
    ensures !Idempotent(map["" := [Entry("a-b", Some("1"))]], [])
  {
    hide Rewritten, Classify, Idempotent;
    var e := Entry("a-b", Some("1"));
    var r: Replacements := map["" := [e]];
    assert e.key[1] == '-' && !Bare(e.key);
    assert e in Entries(r, "") && !Writable(r, "");
    DashedIsInert(r, e);
    IdempotentIff(r, []);
  }

  lemma DashedIsInert(r: Replacements, e: Entry)
    requires e == Entry("a-b", Some("1")) && r == map["" := [e]]
    ensures Harmless(r, [], "")
  {
    hide Classify;
    var line := Emit("", e.key, e.value.value);
    assert line[0] == 'a' && line[1] == '-';
    DashIsPlain(line);
  }

  lemma DashIsPlain(line: string)
    requires 2 <= |line| && IsKeyChar(line[0]) && line[1] == '-'
    ensures Classify(line) == Plain
  {
    hide IsSpace, IsKeyChar, Span;
    CharacterClasses(line[0]);
    DashIsNoSpace();
    SpanIs(IsSpace, line, 0, 0);
    SpanIs(IsKeyChar, line, 0, 1);
    SpanIs(IsSpace, line, 1, 1);
  }

  lemma DashIsNoSpace()
    ensures !IsSpace('-') && !IsKeyChar('-')
  {
  }

  /** Why written keys must not read as removed ones: with `x` to be removed, the line written for the key
      `x = y` reads as a setting of `x`. Alone it is removed and appended again at the same place, so
      rewriting is idempotent although the key is not bare. */
  lemma RemovedKeyHidesAnother()
    ensures var r: Replacements := map["" := [Entry("x = y", Some("1")), Entry("x", None)]];
            Dictionary(r) && Idempotent(r, []) && !Readable(r, [], "")
  {
    hide Classify, Emit, Bare;
    var y, x := Entry("x = y", Some("1")), Entry("x", None);
    var r: Replacements := map["" := [y, x]];
    var line := Emit("", y.key, "1");
    ReadsAsX();
    MissingOnce([y, x], {});
    MissingOnce([y, x], {("", "x")});
    assert Entries(r, "") == [y, x] && Find([y, x], "x") == Some(x);
    assert [line][1..] == [];
    assert START.seen + {("", "x")} == {("", "x")};
    assert Next(r, line, START) == State("", {("", "x")});
    assert Rewritten(r, [line], START) == [] + Rewritten(r, [], State("", {("", "x")}));
    assert y in Entries(r, "");
  }

  lemma ReadsAsX()
    ensures Classify(Emit("", "x = y", "1")) == Setting("", "x") && !Bare("x = y")
  {
    assert "x = y"[1] == ' ' && !IsKeyChar(' ');
    assert Emit("", "x = y", "1") == "" + "x" + " " + "=" + " y = 1";
    assert IsSpace(' ');
    SettingReads("", "x", " ", " y = 1");
  }

  lemma MissingOnce(entries: seq<Entry>, seen: Seen)
    requires entries == [Entry("x = y", Some("1")), Entry("x", None)] && ("", "x = y") !in seen
    ensures Missing(entries, "", seen) == [Emit("", "x = y", "1")]
  {
    hide Emit;
    var rest := entries[1..];
    assert rest == [Entry("x", None)] && rest[1..] == [];
    assert Missing(rest, "", seen) == [];
  }

  /** Before another written key it is appended behind that one instead, and rewriting is not idempotent. */
  lemma RemovedKeyReorders()
    ensures var r: Replacements := map["" := [Entry("x = y", Some("1")), Entry("z", Some("2")), Entry("x", None)]];
            Dictionary(r) && !Idempotent(r, [])
  {
    hide Classify, Emit, Bare, Missing;
    var y, z, x := Entry("x = y", Some("1")), Entry("z", Some("2")), Entry("x", None);
    var entries := [y, z, x];
    var r: Replacements := map["" := entries];
    var first, second := Emit("", y.key, "1"), Emit("", "z", "2");
    ReadsAsX();
    assert Classify(second) == Setting("", "z") by { BareZ(); EmittedReadsBack("", "z", "2"); }
    assert Entries(r, "") == entries && Find(entries, "x") == Some(x) && Find(entries, "z") == Some(z);
    MissingOfThree(y, z, x, {});
    assert Rewritten(r, [], START) == [first, second];
    var all: Seen := {("", "x"), ("", "z")};
    MissingOfThree(y, z, x, all);
    assert Missing(entries, "", all) == [first];
    assert Next(r, first, START) == State("", {("", "x")});
    assert Next(r, second, State("", {("", "x")})) == State("", all);
    assert [first, second][1..] == [second] && [second][1..] == [];
    assert Rewritten(r, [second], State("", {("", "x")})) == [second] + [first];
    assert Rewritten(r, [first, second], START) == [second, first];
  }

  lemma MissingOfThree(a: Entry, b: Entry, c: Entry, seen: Seen)
    requires a.value.Some? && b.value.Some? && c.value.None?
    ensures Missing([a, b, c], "", seen)
            == (if ("", a.key) in seen then [] else [Emit("", a.key, a.value.value)])
               + if ("", b.key) in seen then [] else [Emit("", b.key, b.value.value)]
  {
    hide Emit;
    assert [a, b, c][1..] == [b, c] && [b, c][1..] == [c] && [c][1..] == [];
    assert Missing([c], "", seen) == Missing([], "", seen) == [];
  }

  lemma BareZ()
    ensures Bare("z") && Spaces("")
  {
  }
}
