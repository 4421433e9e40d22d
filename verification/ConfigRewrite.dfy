/** The line-based rewriter of configuration texts.

    Replacements are kept per section in the order of the dictionary, with values
    already formatted; a missing value stands for a key that is to be removed.
 */
module ConfigRewrite {
  import opened Wrappers
  import opened ConfigLines

  datatype Entry = Entry(key: string, value: Option<string>)

  type Replacements = map<string, seq<Entry>>

  /** The keys of one section are distinct, as the keys of a dictionary are. */
  ghost predicate Dictionary(r: Replacements) {
    forall s, i, j :: s in r && 0 <= i < j < |r[s]| ==> r[s][i].key != r[s][j].key
  }

  function Entries(r: Replacements, section: string): seq<Entry> {
    if section in r then r[section] else []
  }

  function Find(entries: seq<Entry>, key: string): (e: Option<Entry>)
    ensures e.Some? ==> e.value in entries && e.value.key == key
    ensures e.None? ==> forall x :: x in entries ==> x.key != key
  {
    if entries == [] then None
    else if entries[0].key == key then Some(entries[0])
    else Find(entries[1..], key)
  }

  /** A key seen in a section. */
  type Seen = set<(string, string)>

  /** The lines appended for the entries that have a value and were not seen. */
  function Missing(entries: seq<Entry>, section: string, seen: Seen): seq<string> {
    if entries == [] then []
    else
      var e := entries[0];
      var rest := Missing(entries[1..], section, seen);
      if e.value.Some? && (section, e.key) !in seen then [Emit("", e.key, e.value.value)] + rest else rest
  }

  function Marked(entries: seq<Entry>, section: string): Seen {
    set e | e in entries && e.value.Some? :: (section, e.key)
  }

  /** The current section and what was seen so far. */
  datatype State = State(section: string, seen: Seen)

  function MissingIn(r: Replacements, st: State): seq<string> {
    Missing(Entries(r, st.section), st.section, st.seen)
  }

  /** What one line becomes. */
  function Output(r: Replacements, line: string, st: State): seq<string> {
    match Classify(line)
    case Header(_) => MissingIn(r, st) + [line]
    case Setting(indent, key) =>
      var e := Find(Entries(r, st.section), key);
      if e.None? then [line] else if e.value.value.None? then [] else [Emit(indent, key, e.value.value.value)]
    case Plain => [line]
  }

  function Next(r: Replacements, line: string, st: State): State {
    match Classify(line)
    case Header(section) => State(section, st.seen + Marked(Entries(r, st.section), st.section))
    case Setting(_, key) =>
      if Find(Entries(r, st.section), key).Some? then st.(seen := st.seen + {(st.section, key)}) else st
    case Plain => st
  }

  function Rewritten(r: Replacements, lines: seq<string>, st: State): seq<string> {
    if lines == [] then MissingIn(r, st)
    else Output(r, lines[0], st) + Rewritten(r, lines[1..], Next(r, lines[0], st))
  }

  // ----- the loop -----

  method AppendMissing(r: Replacements, section: string, output: seq<string>, seen: Seen)
    returns (output': seq<string>, seen': Seen)
    requires Dictionary(r)
    ensures output' == output + Missing(Entries(r, section), section, seen)
    ensures seen' == seen + Marked(Entries(r, section), section)
  {
    hide Emit, Marked;
    output', seen' := output, seen;
    NothingMarked(section);
    var entries := Entries(r, section);
    for i := 0 to |entries|
      invariant output' + Missing(entries[i..], section, seen) == output + Missing(entries, section, seen)
      invariant seen' == seen + Marked(entries[..i], section)
    {
      var e := entries[i];
      assert entries[i..][0] == e && entries[i..][1..] == entries[i + 1..];
      assert entries[..i + 1] == entries[..i] + [e];
      MarkedAppend(entries[..i], section, e);
      NotYetMarked(entries, section, i);
      if e.value.Some? && (section, e.key) !in seen' {
        output' := output' + [Emit("", e.key, e.value.value)];
        seen' := seen' + {(section, e.key)};
      }
    }
    assert entries[..|entries|] == entries;
  }

  lemma NothingMarked(section: string)
    ensures Marked([], section) == {}
  {
  }

  lemma NotYetMarked(entries: seq<Entry>, section: string, i: nat)
    requires i < |entries| && forall j, k :: 0 <= j < k < |entries| ==> entries[j].key != entries[k].key
    ensures (section, entries[i].key) !in Marked(entries[..i], section)
  {
  }

  lemma MarkedAppend(entries: seq<Entry>, section: string, e: Entry)
    ensures Marked(entries + [e], section)
         == if e.value.Some? then Marked(entries, section) + {(section, e.key)} else Marked(entries, section)
  {
    forall x ensures x in Marked(entries + [e], section)
                <==> x in Marked(entries, section) || (e.value.Some? && x == (section, e.key))
    {
    }
  }

  const START := State("", {})

  /** One turn of the loop. */
  method RewriteLine(r: Replacements, line: string, st: State, output: seq<string>)
    returns (output': seq<string>, st': State)
    requires Dictionary(r)
    ensures output' == output + Output(r, line, st)
    ensures st' == Next(r, line, st)
  {
    hide Classify, Emit, Missing, Marked, Entries, Find;
    output', st' := output, st;
    var kind := Classify(line);
    if kind.Header? {
      var seen;
      output', seen := AppendMissing(r, st.section, output, st.seen);
      st' := State(kind.section, seen);
      output' := output' + [line];
      return;
    }
    if kind.Setting? {
      var e := Find(Entries(r, st.section), kind.key);
      if e.Some? {
        st' := st.(seen := st.seen + {(st.section, kind.key)});
        if e.value.value.Some? {
          output' := output' + [Emit(kind.indent, kind.key, e.value.value.value)];
        }
        return;
      }
    }
    output' := output' + [line];
  }

  method RewriteLines(r: Replacements, lines: seq<string>) returns (output: seq<string>)
    requires Dictionary(r)
    ensures output == Rewritten(r, lines, START)
  {
    hide Output, Next, MissingIn;
    output := [];
    var st := START;
    for i := 0 to |lines|
      invariant output + Rewritten(r, lines[i..], st) == Rewritten(r, lines, START)
    {
      assert lines[i..][0] == lines[i] && lines[i..][1..] == lines[i + 1..];
      output, st := RewriteLine(r, lines[i], st, output);
    }
    var seen;
    output, seen := AppendMissing(r, st.section, output, st.seen);
    assert output == Rewritten(r, lines, START) by { MissingAtEnd(r, st); }
  }

  lemma MissingAtEnd(r: Replacements, st: State)
    ensures MissingIn(r, st) == Missing(Entries(r, st.section), st.section, st.seen)
  {
  }
}
