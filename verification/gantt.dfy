/**
 * Mermaid gantt text: the emitter both pages use to show a task list as a
 * chart definition, and the line-based importer the editor uses to read one
 * back.  The two are partners: under conditions on the field values,
 * importing what was emitted gives the same tasks back, in order.
 */
module Gantt {
  import opened Text
  import opened Dates
  import opened Wrappers

  /** The part of a task a gantt line shows. */
  datatype Entry = Entry(id: string, section: string, name: string, start: string, end: string)

  /** The four spaces every line after the first is indented by. */
  const Indent: string := "    "

  const Header: seq<string> := ["gantt", Indent + "dateFormat YYYY-MM-DD", Indent + "title Gantt Chart"]

  /** `    section <section>` */
  function SectionLine(section: string): string {
    Indent + ("section" + (" " + section))
  }

  /** What follows the colon of a task line: `<id>, <start>, <end>`. */
  function Remainder(e: Entry): string {
    e.id + ", " + e.start + ", " + e.end
  }

  /** `    <name> : <id>, <start>, <end>` */
  function TaskLine(e: Entry): string {
    Indent + (e.name + (" " + (":" + (" " + Remainder(e)))))
  }

  /** The lines for one entry: a section line when its section differs from
      the one opened last, then its task line. */
  function EntryLines(current: Option<string>, e: Entry): seq<string> {
    (if current != Some(e.section) then [SectionLine(e.section)] else []) + [TaskLine(e)]
  }

  /** The body lines for entries, when the line before them opened the section
      current (None before the first entry). */
  function BodyLines(current: Option<string>, entries: seq<Entry>): seq<string>
    decreases |entries|
  {
    if |entries| == 0 then []
    else EntryLines(current, entries[0]) + BodyLines(Some(entries[0].section), entries[1..])
  }

  /** The whole chart definition, one line per element of the header and body. */
  function GanttText(entries: seq<Entry>): string {
    Join(Header + BodyLines(None, entries), "\n")
  }

  /** Emits the chart definition for entries in their order. */
  method EmitGantt(entries: seq<Entry>) returns (text: string)
    ensures text == GanttText(entries)
  {
    var lines := Header;
    var current: Option<string> := None;
    for i := 0 to |entries|
      invariant lines + BodyLines(current, entries[i..]) == Header + BodyLines(None, entries)
    {
      var e := entries[i];
      assert entries[i..][1..] == entries[i + 1..];
      if current != Some(e.section) {
        current := Some(e.section);
        lines := lines + [SectionLine(e.section)];
      }
      lines := lines + [TaskLine(e)];
    }
    assert BodyLines(current, entries[|entries|..]) == [];
    assert lines + [] == lines;
    text := Join(lines, "\n");
  }

  // ---------------------------------------------------------------------
  // Import
  // ---------------------------------------------------------------------

  /** What the importer carries from line to line: the current section, the
      number used for the next generated id, and the entries read so far. */
  datatype ParseState = ParseState(section: string, count: nat, parsed: seq<Entry>)

  const Start: ParseState := ParseState("Default", 1, [])

  /** The comma-separated tokens of a task line's remainder, each stripped. */
  function Tokens(rem: string): (tokens: seq<string>)
    ensures |tokens| >= 1
  {
    StripEach(Split(rem, ','))
  }

  function StripEach(parts: seq<string>): (r: seq<string>)
    ensures |r| == |parts|
  {
    seq(|parts|, i requires 0 <= i < |parts| => Strip(parts[i]))
  }

  /** The tokens that begin with a YYYY-MM-DD shape, in order. */
  function DateTokens(tokens: seq<string>): (dates: seq<string>)
    ensures forall i :: 0 <= i < |dates| ==> HasDatePrefix(dates[i])
  {
    if |tokens| == 0 then []
    else (if HasDatePrefix(tokens[0]) then [tokens[0]] else []) + DateTokens(tokens[1..])
  }

  /** The tokens that are neither dates nor `after` references, in order. */
  function IdTokens(tokens: seq<string>): (ids: seq<string>)
    ensures forall i :: 0 <= i < |ids| ==> !HasDatePrefix(ids[i]) && !StartsWith(ids[i], "after")
  {
    if |tokens| == 0 then []
    else (if !HasDatePrefix(tokens[0]) && !StartsWith(tokens[0], "after") then [tokens[0]] else []) + IdTokens(tokens[1..])
  }

  /** DateTokens keeps exactly the dated tokens, and there is one exactly
      when some token is dated. */
  lemma {:induction false} DateTokensMembers(tokens: seq<string>)
    ensures forall t :: t in DateTokens(tokens) <==> t in tokens && HasDatePrefix(t)
    ensures |DateTokens(tokens)| > 0 <==> exists k :: 0 <= k < |tokens| && HasDatePrefix(tokens[k])
  {
    if |tokens| > 0 {
      var rest := tokens[1..];
      DateTokensMembers(rest);
      assert tokens == [tokens[0]] + rest;
      if !HasDatePrefix(tokens[0]) && |DateTokens(rest)| == 0 {
        forall k | 0 <= k < |tokens| ensures !HasDatePrefix(tokens[k]) {
          if k > 0 { assert tokens[k] == rest[k - 1]; }
        }
      }
    }
  }

  /** The first element of DateTokens is the earliest dated token. */
  lemma {:induction false} DateTokensFirst(tokens: seq<string>)
    ensures |DateTokens(tokens)| > 0 ==>
      exists k :: 0 <= k < |tokens| && DateTokens(tokens)[0] == tokens[k] && forall j :: 0 <= j < k ==> !HasDatePrefix(tokens[j])
  {
    if |tokens| > 0 {
      var rest := tokens[1..];
      DateTokensFirst(rest);
      if !HasDatePrefix(tokens[0]) && |DateTokens(rest)| > 0 {
        var k :| 0 <= k < |rest| && DateTokens(rest)[0] == rest[k] && forall j :: 0 <= j < k ==> !HasDatePrefix(rest[j]);
        assert tokens[k + 1] == rest[k];
      }
    }
  }

  /** IdTokens keeps exactly the tokens that are neither dated nor `after`
      references. */
  lemma {:induction false} IdTokensMembers(tokens: seq<string>)
    ensures forall t :: t in IdTokens(tokens) <==> t in tokens && !HasDatePrefix(t) && !StartsWith(t, "after")
  {
    if |tokens| > 0 {
      IdTokensMembers(tokens[1..]);
      assert tokens == [tokens[0]] + tokens[1..];
    }
  }

  /** The first element of IdTokens is the earliest such token. */
  lemma {:induction false} IdTokensFirst(tokens: seq<string>)
    ensures |IdTokens(tokens)| > 0 ==>
      exists k :: 0 <= k < |tokens| && IdTokens(tokens)[0] == tokens[k]
        && forall j :: 0 <= j < k ==> HasDatePrefix(tokens[j]) || StartsWith(tokens[j], "after")
  {
    if |tokens| > 0 {
      var rest := tokens[1..];
      IdTokensFirst(rest);
      if (HasDatePrefix(tokens[0]) || StartsWith(tokens[0], "after")) && |IdTokens(rest)| > 0 {
        var k :| 0 <= k < |rest| && IdTokens(rest)[0] == rest[k]
          && forall j :: 0 <= j < k ==> HasDatePrefix(rest[j]) || StartsWith(rest[j], "after");
        assert tokens[k + 1] == rest[k];
      }
    }
  }

  /** k is the first dated token at or after position from. */
  predicate FirstDatedFrom(tokens: seq<string>, from: int, k: int) {
    && 0 <= from <= k < |tokens| && HasDatePrefix(tokens[k])
    && forall j :: from <= j < k ==> !HasDatePrefix(tokens[j])
  }

  /** No token at or after position from is dated. */
  predicate NoDatedFrom(tokens: seq<string>, from: int) {
    forall j :: 0 <= j < |tokens| && from <= j ==> !HasDatePrefix(tokens[j])
  }

  /** m is the first token that is neither dated nor an `after` reference. */
  predicate FirstIdToken(tokens: seq<string>, m: int) {
    && 0 <= m < |tokens| && !HasDatePrefix(tokens[m]) && !StartsWith(tokens[m], "after")
    && forall j :: 0 <= j < m ==> HasDatePrefix(tokens[j]) || StartsWith(tokens[j], "after")
  }

  /** The dated tokens from position from on: none exactly when no token
      there is dated, and otherwise the first of them followed by the dated
      tokens after it. */
  lemma {:induction false} DateTokensFrom(tokens: seq<string>, from: nat)
    requires from <= |tokens|
    ensures DateTokens(tokens[from..]) == [] <==> NoDatedFrom(tokens, from)
    ensures forall k :: FirstDatedFrom(tokens, from, k) ==>
      DateTokens(tokens[from..]) == [tokens[k]] + DateTokens(tokens[k + 1..])
    decreases |tokens| - from
  {
    if from < |tokens| {
      var t := tokens[from..];
      assert t[0] == tokens[from];
      assert t[1..] == tokens[from + 1..];
      DateTokensFrom(tokens, from + 1);
      if HasDatePrefix(tokens[from]) {
        assert !NoDatedFrom(tokens, from);
      }
    }
  }

  /** The first id token, when there is one, is the first of IdTokens;
      when there is none, IdTokens is empty. */
  lemma IdTokensFirstIndex(tokens: seq<string>)
    ensures forall m :: FirstIdToken(tokens, m) ==> |IdTokens(tokens)| > 0 && IdTokens(tokens)[0] == tokens[m]
    ensures (forall m :: !FirstIdToken(tokens, m)) ==> IdTokens(tokens) == []
  {
    IdTokensMembers(tokens);
    IdTokensFirst(tokens);
    forall m | FirstIdToken(tokens, m) ensures |IdTokens(tokens)| > 0 && IdTokens(tokens)[0] == tokens[m] {
      assert tokens[m] in IdTokens(tokens);
      var k :| 0 <= k < |tokens| && IdTokens(tokens)[0] == tokens[k]
        && forall j :: 0 <= j < k ==> HasDatePrefix(tokens[j]) || StartsWith(tokens[j], "after");
      assert IdTokens(tokens)[0] in IdTokens(tokens);
      assert k == m;
    }
    if |IdTokens(tokens)| > 0 {
      var k :| 0 <= k < |tokens| && IdTokens(tokens)[0] == tokens[k]
        && forall j :: 0 <= j < k ==> HasDatePrefix(tokens[j]) || StartsWith(tokens[j], "after");
      assert IdTokens(tokens)[0] in IdTokens(tokens);
      assert FirstIdToken(tokens, k);
    }
  }

  /** The entry a task line yields, if it holds a date: the name before the
      first colon, the first date as start, the second (or the first again)
      as end, and the first plain token (or a generated one) as id. */
  function TaskOf(line: string, section: string, count: nat): (e: Option<Entry>)
    requires ':' in line
    ensures e.Some? ==> HasDatePrefix(e.value.start) && HasDatePrefix(e.value.end) && e.value.section == section
  {
    var parts := Split(line, ':');
    var name := Strip(parts[0]);
    var tokens := Tokens(Strip(parts[1]));
    var dates := DateTokens(tokens);
    var ids := IdTokens(tokens);
    if |dates| >= 1 then
      var s := dates[0];
      var e := if |dates| > 1 then dates[1] else s;
      var id := if |ids| > 0 then ids[0] else "id" + Decimal(count);
      Some(Entry(id, section, name, s, e))
    else None
  }

  /** The effect of one line on the importer's state. */
  function ParseLine(st: ParseState, raw: string): (st': ParseState)
    ensures st'.parsed == st.parsed || (|st'.parsed| == |st.parsed| + 1 && st'.parsed[..|st.parsed|] == st.parsed)
    ensures |st'.parsed| > |st.parsed| ==>
      HasDatePrefix(st'.parsed[|st.parsed|].start) && HasDatePrefix(st'.parsed[|st.parsed|].end)
  {
    var line := Strip(raw);
    if StartsWith(line, "section") then st.(section := Strip(RemoveAll(line, "section")))
    else if ':' in line then
      match TaskOf(line, st.section, st.count)
      case Some(e) => ParseState(st.section, st.count + 1, st.parsed + [e])
      case None => st
    else st
  }

  /** The state after reading lines in order. */
  function ParseFrom(st: ParseState, lines: seq<string>): ParseState
    decreases |lines|
  {
    if |lines| == 0 then st else ParseFrom(ParseLine(st, lines[0]), lines[1..])
  }

  /** The entries imported from a chart definition. */
  function ImportEntries(text: string): seq<Entry> {
    ParseFrom(Start, Split(text, '\n')).parsed
  }

  /** Reading entries never forgets those read before, and every entry read
      carries a date-prefixed start and end. */
  lemma {:induction false} ParseFromExtends(st: ParseState, lines: seq<string>)
    ensures st.parsed <= ParseFrom(st, lines).parsed
    ensures forall i :: |st.parsed| <= i < |ParseFrom(st, lines).parsed| ==>
      HasDatePrefix(ParseFrom(st, lines).parsed[i].start) && HasDatePrefix(ParseFrom(st, lines).parsed[i].end)
    decreases |lines|
  {
    if |lines| > 0 {
      var st1 := ParseLine(st, lines[0]);
      ParseFromExtends(st1, lines[1..]);
    }
  }

  lemma {:induction false} ParseFromAppend(st: ParseState, a: seq<string>, b: seq<string>)
    ensures ParseFrom(st, a + b) == ParseFrom(ParseFrom(st, a), b)
    decreases |a|
  {
    if |a| > 0 {
      assert (a + b)[1..] == a[1..] + b;
      ParseFromAppend(ParseLine(st, a[0]), a[1..], b);
    } else {
      assert a + b == b;
    }
  }

  /** The name part of a task line: what precedes the first colon, stripped. */
  function LineName(line: string): string
    requires ':' in line
  {
    Strip(Split(line, ':')[0])
  }

  /** The tokens of a task line: the text between the first and second
      colon, stripped, split at commas, each token stripped. */
  function LineTokens(line: string): seq<string>
    requires ':' in line
  {
    Tokens(Strip(Split(line, ':')[1]))
  }

  /** What a task line yields, read off its tokens, when the k-th token is
      the first dated one: the line's name, the current section, the k-th
      token as start, the next dated token (or the start again) as end, and
      the first id token (or one numbered by count) as id. */
  ghost predicate ReadFromTokens(e: Entry, name: string, section: string, count: nat, tokens: seq<string>, k: int) {
    && FirstDatedFrom(tokens, 0, k)
    && e.name == name && e.section == section && e.start == tokens[k]
    && (NoDatedFrom(tokens, k + 1) ==> e.end == tokens[k])
    && (forall k2 :: FirstDatedFrom(tokens, k + 1, k2) ==> e.end == tokens[k2])
    && (forall m :: FirstIdToken(tokens, m) ==> e.id == tokens[m])
    && ((forall m :: !FirstIdToken(tokens, m)) ==> e.id == "id" + Decimal(count))
  }

  /** TaskOf spelled out over the line's name and tokens. */
  lemma TaskOfUnfold(line: string, section: string, count: nat)
    requires ':' in line
    ensures var dates, ids := DateTokens(LineTokens(line)), IdTokens(LineTokens(line));
      TaskOf(line, section, count) ==
        if |dates| >= 1 then
          Some(Entry(
            if |ids| > 0 then ids[0] else "id" + Decimal(count), section, LineName(line),
            dates[0], if |dates| > 1 then dates[1] else dates[0]))
        else None
  {
  }

  /** With k the first dated token, the first dated token is tokens[k], and
      the second is the first dated one after k, if any. */
  lemma DateTokensPick(tokens: seq<string>, k: int)
    requires FirstDatedFrom(tokens, 0, k)
    ensures |DateTokens(tokens)| >= 1 && DateTokens(tokens)[0] == tokens[k]
    ensures NoDatedFrom(tokens, k + 1) ==> |DateTokens(tokens)| == 1
    ensures forall k2 :: FirstDatedFrom(tokens, k + 1, k2) ==>
      |DateTokens(tokens)| > 1 && DateTokens(tokens)[1] == tokens[k2]
  {
    DateTokensFrom(tokens, 0);
    DateTokensFrom(tokens, k + 1);
    assert tokens[0..] == tokens;
    assert DateTokens(tokens) == [tokens[k]] + DateTokens(tokens[k + 1..]);
    forall k2 | FirstDatedFrom(tokens, k + 1, k2)
      ensures |DateTokens(tokens)| > 1 && DateTokens(tokens)[1] == tokens[k2]
    {
      assert DateTokens(tokens[k + 1..]) == [tokens[k2]] + DateTokens(tokens[k2 + 1..]);
    }
  }

  /** Any line with a colon yields an entry exactly when one of its tokens
      is dated, and the entry is the one its tokens describe. */
  lemma TaskOfTokens(line: string, section: string, count: nat)
    requires ':' in line
    ensures TaskOf(line, section, count).Some? <==> !NoDatedFrom(LineTokens(line), 0)
    ensures forall k :: FirstDatedFrom(LineTokens(line), 0, k) ==>
      TaskOf(line, section, count).Some? &&
      ReadFromTokens(TaskOf(line, section, count).value, LineName(line), section, count, LineTokens(line), k)
  {
    var tokens := LineTokens(line);
    TaskOfUnfold(line, section, count);
    DateTokensFrom(tokens, 0);
    assert tokens[0..] == tokens;
    IdTokensFirstIndex(tokens);
    forall k | FirstDatedFrom(tokens, 0, k)
      ensures TaskOf(line, section, count).Some? &&
        ReadFromTokens(TaskOf(line, section, count).value, LineName(line), section, count, tokens, k)
    {
      DateTokensPick(tokens, k);
    }
  }

  /** The effect of any line on the importer's state.  A stripped line that
      starts with `section` sets the section to the line with every
      `section` deleted, stripped, and reads nothing.  Otherwise the section
      stays; a line with a colon adds exactly one entry, the one its tokens
      describe, when one of its tokens is dated, and nothing else does. */
  lemma ParseLineEffect(st: ParseState, raw: string)
    ensures var line := Strip(raw);
      StartsWith(line, "section") ==>
        ParseLine(st, raw) == st.(section := Strip(RemoveAll(line, "section")))
    ensures var line := Strip(raw);
      !StartsWith(line, "section") && ':' !in line ==> ParseLine(st, raw) == st
    ensures var line, st' := Strip(raw), ParseLine(st, raw);
      !StartsWith(line, "section") && ':' in line ==>
        && st'.section == st.section
        && (|st'.parsed| == |st.parsed| + 1 <==> !NoDatedFrom(LineTokens(line), 0))
        && (NoDatedFrom(LineTokens(line), 0) ==> st' == st)
        && st'.count == st.count + (|st'.parsed| - |st.parsed|)
        && forall k :: FirstDatedFrom(LineTokens(line), 0, k) ==>
          |st'.parsed| == |st.parsed| + 1 &&
          ReadFromTokens(st'.parsed[|st.parsed|], LineName(line), st.section, st.count, LineTokens(line), k)
  {
    var line := Strip(raw);
    if !StartsWith(line, "section") && ':' in line {
      TaskOfTokens(line, st.section, st.count);
    }
  }

  // ---------------------------------------------------------------------
  // Round trip
  // ---------------------------------------------------------------------

  predicate Plain(s: string) {
    ':' !in s && ',' !in s && '\n' !in s && Stripped(s)
  }

  /** The conditions under which an entry survives emit-then-import: fields
      free of the separators and of surrounding whitespace, a name that does
      not read as a section line, a section that does not hold the word
      `section`, date-prefixed start and end, and an id the importer takes as
      an id rather than a date or an `after` reference. */
  predicate RoundTrips(e: Entry) {
    && Plain(e.id) && Plain(e.name) && Plain(e.start) && Plain(e.end)
    && '\n' !in e.section && Stripped(e.section) && !Occurs("section", e.section)
    && !StartsWith(e.name, "section")
    && HasDatePrefix(e.start) && HasDatePrefix(e.end)
    && !HasDatePrefix(e.id) && !StartsWith(e.id, "after")
  }

  lemma IndentIsSpace()
    ensures AllSpace(Indent)
  {
  }

  /** A line that is neither a section line nor holds a colon leaves the
      importer's state alone. */
  predicate InertLine(x: string) {
    |x| > 0 && !IsSpace(x[0]) && !IsSpace(x[|x| - 1]) && x[0] != 's' && ':' !in x
  }

  lemma HeaderInert()
    ensures InertLine("gantt")
    ensures InertLine("dateFormat YYYY-MM-DD")
    ensures InertLine("title Gantt Chart")
  {
  }

  lemma PlainLineParse(st: ParseState, x: string)
    requires InertLine(x)
    ensures ParseLine(st, x) == st && ParseLine(st, Indent + x) == st
  {
    IndentIsSpace();
    StripSpacePrefix(Indent, x);
    StripTrimmed(x);
  }

  /** Three lines none of which changes the state leave it alone together. */
  lemma ParseThreeFixed(st: ParseState, a: string, b: string, c: string)
    requires ParseLine(st, a) == st && ParseLine(st, b) == st && ParseLine(st, c) == st
    ensures ParseFrom(st, [a, b, c]) == st
  {
    assert [a, b, c][1..] == [b, c];
    ParseTwo(st, b, c);
  }

  lemma HeaderParse(st: ParseState)
    ensures ParseFrom(st, Header) == st
  {
    HeaderInert();
    PlainLineParse(st, "gantt");
    PlainLineParse(st, "dateFormat YYYY-MM-DD");
    PlainLineParse(st, "title Gantt Chart");
    ParseThreeFixed(st, "gantt", Indent + "dateFormat YYYY-MM-DD", Indent + "title Gantt Chart");
  }

  lemma EmptySectionLineParse(st: ParseState)
    ensures ParseLine(st, SectionLine("")) == st.(section := "")
  {
    IndentIsSpace();
    assert " " + "" == " ";
    StripSpacePrefix(Indent, "section" + " ");
    StripPadded("", "section", " ");
    assert "" + "section" + " " == "section" + " ";
    assert StartsWith("section", "section");
    assert RemoveAll("section", "section") == "";
    StripTrimmed("");
  }

  /** Deleting the word `section` from a section line leaves the name with
      the space in front of it. */
  lemma RemoveSectionWord(section: string)
    requires !Occurs("section", section)
    ensures RemoveAll("section" + (" " + section), "section") == " " + section
  {
    var line := "section" + (" " + section);
    assert line[..7] == "section";
    assert line[7..] == " " + section;
    assert (" " + section)[1..] == section;
    RemoveAbsent(section, "section");
  }

  lemma NamedSectionLineParse(st: ParseState, section: string)
    requires |section| > 0 && Stripped(section) && !Occurs("section", section)
    ensures ParseLine(st, SectionLine(section)) == st.(section := section)
  {
    var line := "section" + (" " + section);
    IndentIsSpace();
    StripSpacePrefix(Indent, line);
    assert line[|line| - 1] == section[|section| - 1];
    StripTrimmed(line);
    assert line[..7] == "section";
    RemoveSectionWord(section);
    StripTrimmed(section);
  }

  lemma SectionLineParse(st: ParseState, section: string)
    requires Stripped(section) && !Occurs("section", section)
    ensures ParseLine(st, SectionLine(section)) == st.(section := section)
  {
    if |section| == 0 {
      EmptySectionLineParse(st);
    } else {
      NamedSectionLineParse(st, section);
    }
  }

  lemma NotSectionPrefix(name: string, tail: string)
    requires !StartsWith(name, "section") && |tail| > 0 && tail[0] == ' '
    ensures !StartsWith(name + tail, "section")
  {
    var s := name + tail;
    if |name| >= 7 {
      assert s[..7] == name[..7];
    } else if |s| >= 7 {
      assert s[..7][|name|] == ' ';
      assert "section"[|name|] != ' ';
    }
  }

  lemma NotSectionStart(s: string)
    requires |s| > 0 && s[0] != 's'
    ensures !StartsWith(s, "section")
  {
    if |s| >= 7 {
      assert s[..7][0] == s[0];
    }
  }

  lemma RemainderShape(e: Entry)
    requires RoundTrips(e)
    ensures ':' !in " " + Remainder(e) && Stripped(Remainder(e)) && |Remainder(e)| > 0
  {
    var rem := Remainder(e);
    forall i | 0 <= i < |rem| ensures rem[i] != ':' {
      if i < |e.id| { assert rem[i] == e.id[i]; }
      else if i < |e.id| + 2 { }
      else if i < |e.id| + 2 + |e.start| { assert rem[i] == e.start[i - |e.id| - 2]; }
      else if i < |e.id| + 4 + |e.start| { }
      else { assert rem[i] == e.end[i - |e.id| - 4 - |e.start|]; }
    }
    var body := " " + rem;
    assert forall i :: 0 < i < |body| ==> body[i] == rem[i - 1];
    assert rem[|rem| - 1] == e.end[|e.end| - 1];
    if |e.id| > 0 { assert rem[0] == e.id[0]; } else { assert rem[0] == ','; }
  }

  lemma SplitRemainder(e: Entry)
    requires RoundTrips(e)
    ensures Split(Remainder(e), ',') == [e.id, " " + e.start, " " + e.end]
  {
    var tail := " " + e.end;
    var mid := " " + e.start;
    assert Remainder(e) == e.id + [','] + (mid + [','] + tail);
    SplitFirst(e.id, ',', mid + [','] + tail);
    assert ',' !in mid by { assert forall i :: 0 < i < |mid| ==> mid[i] == e.start[i - 1]; }
    assert ',' !in tail by { assert forall i :: 0 < i < |tail| ==> tail[i] == e.end[i - 1]; }
    SplitFirst(mid, ',', tail);
    SplitNoSeparator(tail, ',');
  }

  lemma StripEachTokens(a: string, b: string, c: string)
    requires Stripped(a) && Stripped(b) && Stripped(c)
    ensures StripEach([a, " " + b, " " + c]) == [a, b, c]
  {
    StripEachThree(a, " " + b, " " + c);
    StripTrimmed(a);
    StripTrimmed(b);
    StripTrimmed(c);
  }

  lemma StripEachThree(x: string, y: string, z: string)
    ensures StripEach([x, y, z]) == [Strip(x), Strip(y), Strip(z)]
  {
  }

  lemma DatesOfTokens(a: string, b: string, c: string)
    requires !HasDatePrefix(a) && HasDatePrefix(b) && HasDatePrefix(c)
    ensures DateTokens([a, b, c]) == [b, c]
  {
    assert [a, b, c][1..] == [b, c] && [b, c][1..] == [c] && [c][1..] == [];
    assert DateTokens([c]) == [c];
  }

  lemma IdsOfTokens(a: string, b: string, c: string)
    requires !HasDatePrefix(a) && !StartsWith(a, "after") && HasDatePrefix(b) && HasDatePrefix(c)
    ensures IdTokens([a, b, c]) == [a]
  {
    assert [a, b, c][1..] == [b, c] && [b, c][1..] == [c] && [c][1..] == [];
    assert !StartsWith(b, "after") by { assert b[0] != 'a'; }
    assert !StartsWith(c, "after") by { assert c[0] != 'a'; }
    assert IdTokens([c]) == [];
    assert IdTokens([b, c]) == [];
  }

  /** The tokens of a task line's remainder are exactly its id, start and end,
      and the importer takes the first as the id and the others as dates. */
  lemma TokensOfTaskLine(e: Entry)
    requires RoundTrips(e)
    ensures Tokens(Remainder(e)) == [e.id, e.start, e.end]
    ensures DateTokens([e.id, e.start, e.end]) == [e.start, e.end]
    ensures IdTokens([e.id, e.start, e.end]) == [e.id]
  {
    SplitRemainder(e);
    StripEachTokens(e.id, e.start, e.end);
    DatesOfTokens(e.id, e.start, e.end);
    IdsOfTokens(e.id, e.start, e.end);
  }

  /** The text before a task line's colon, once the line is stripped. */
  function NamePart(e: Entry): string {
    if |e.name| == 0 then "" else e.name + " "
  }

  /** A task line, stripped: its name part, a colon and the padded remainder. */
  function StrippedTaskLine(e: Entry): string {
    NamePart(e) + (":" + (" " + Remainder(e)))
  }

  lemma NamePartShape(e: Entry)
    requires RoundTrips(e)
    ensures ':' !in NamePart(e) && Strip(NamePart(e)) == e.name
  {
    if |e.name| == 0 {
      StripTrimmed("");
    } else {
      assert forall i :: 0 <= i < |e.name| ==> NamePart(e)[i] == e.name[i];
      StripTrimmedBefore(e.name);
    }
  }

  lemma StrippedTaskLineShape(e: Entry)
    requires RoundTrips(e)
    ensures Stripped(StrippedTaskLine(e)) && |StrippedTaskLine(e)| > 0
    ensures |e.name| == 0 ==> StrippedTaskLine(e)[0] == ':'
    ensures |e.name| > 0 ==> StrippedTaskLine(e) == e.name + (" " + (":" + (" " + Remainder(e))))
  {
    var rem := Remainder(e);
    RemainderShape(e);
    var line := StrippedTaskLine(e);
    assert line[|line| - 1] == rem[|rem| - 1];
    if |e.name| > 0 {
      assert line[0] == e.name[0];
    }
  }

  lemma TaskLineStrip(e: Entry)
    requires RoundTrips(e)
    ensures Strip(TaskLine(e)) == StrippedTaskLine(e)
  {
    var x := e.name + (" " + (":" + (" " + Remainder(e))));
    IndentIsSpace();
    StripSpacePrefix(Indent, x);
    StrippedTaskLineShape(e);
    StripTrimmed(StrippedTaskLine(e));
    UnnamedTaskLine(e);
  }

  lemma UnnamedTaskLine(e: Entry)
    ensures |e.name| == 0 ==> e.name + (" " + (":" + (" " + Remainder(e)))) == " " + StrippedTaskLine(e)
  {
  }

  lemma TaskLineNotSection(e: Entry)
    requires RoundTrips(e)
    ensures !StartsWith(StrippedTaskLine(e), "section")
  {
    StrippedTaskLineShape(e);
    if |e.name| == 0 {
      NotSectionStart(StrippedTaskLine(e));
    } else {
      NotSectionPrefix(e.name, " " + (":" + (" " + Remainder(e))));
    }
  }

  lemma SplitTaskLine(e: Entry)
    requires RoundTrips(e)
    ensures Split(StrippedTaskLine(e), ':') == [NamePart(e), " " + Remainder(e)]
  {
    RemainderShape(e);
    NamePartShape(e);
    SplitAround(NamePart(e), ':', " " + Remainder(e));
    SplitNoSeparator(" " + Remainder(e), ':');
  }

  lemma TaskOfTaskLine(e: Entry, section: string, count: nat)
    requires RoundTrips(e)
    ensures ':' in StrippedTaskLine(e)
    ensures TaskOf(StrippedTaskLine(e), section, count) == Some(e.(section := section))
  {
    assert StrippedTaskLine(e)[|NamePart(e)|] == ':';
    SplitTaskLine(e);
    NamePartShape(e);
    RemainderShape(e);
    StripTrimmed(Remainder(e));
    TokensOfTaskLine(e);
  }

  lemma TaskLineParse(st: ParseState, e: Entry)
    requires RoundTrips(e)
    ensures ParseLine(st, TaskLine(e)) == ParseState(st.section, st.count + 1, st.parsed + [e.(section := st.section)])
  {
    TaskLineStrip(e);
    TaskLineNotSection(e);
    TaskOfTaskLine(e, st.section, st.count);
  }

  /** Reading one entry's lines appends that entry and leaves its section
      current, when the importer's section is the one the emitter opened last. */
  lemma EntryLinesParse(st: ParseState, current: Option<string>, e: Entry)
    requires current.Some? ==> st.section == current.value
    requires RoundTrips(e)
    ensures ParseFrom(st, EntryLines(current, e)) == ParseState(e.section, st.count + 1, st.parsed + [e])
  {
    if current != Some(e.section) {
      assert EntryLines(current, e) == [SectionLine(e.section), TaskLine(e)];
      NewSectionParse(st, e);
    } else {
      assert EntryLines(current, e) == [TaskLine(e)];
      SameSectionParse(st, e);
    }
  }

  lemma NewSectionParse(st: ParseState, e: Entry)
    requires RoundTrips(e)
    ensures ParseFrom(st, [SectionLine(e.section), TaskLine(e)]) == ParseState(e.section, st.count + 1, st.parsed + [e])
  {
    SectionLineParse(st, e.section);
    TaskLineParse(st.(section := e.section), e);
    ParseTwo(st, SectionLine(e.section), TaskLine(e));
  }

  lemma SameSectionParse(st: ParseState, e: Entry)
    requires st.section == e.section
    requires RoundTrips(e)
    ensures ParseFrom(st, [TaskLine(e)]) == ParseState(e.section, st.count + 1, st.parsed + [e])
  {
    TaskLineParse(st, e);
    ParseOne(st, TaskLine(e));
  }

  lemma ParseOne(st: ParseState, a: string)
    ensures ParseFrom(st, [a]) == ParseLine(st, a)
  {
    assert [a][1..] == [];
  }

  lemma ParseTwo(st: ParseState, a: string, b: string)
    ensures ParseFrom(st, [a, b]) == ParseLine(ParseLine(st, a), b)
  {
    assert [a, b][1..] == [b];
    ParseOne(ParseLine(st, a), b);
  }

  lemma ParseConcat(st: ParseState, a: seq<string>, b: seq<string>, st1: ParseState)
    requires ParseFrom(st, a) == st1
    ensures ParseFrom(st, a + b) == ParseFrom(st1, b)
  {
    ParseFromAppend(st, a, b);
  }

  lemma AppendFirst<T>(p: seq<T>, s: seq<T>)
    requires |s| > 0
    ensures p + [s[0]] + s[1..] == p + s
  {
    assert [s[0]] + s[1..] == s;
  }

  /** Reading the body lines of entries appends those entries. */
  lemma {:induction false} BodyParse(st: ParseState, current: Option<string>, entries: seq<Entry>)
    requires current.Some? ==> st.section == current.value
    requires forall i :: 0 <= i < |entries| ==> RoundTrips(entries[i])
    ensures ParseFrom(st, BodyLines(current, entries)).parsed == st.parsed + entries
    decreases |entries|
  {
    if |entries| == 0 {
      assert st.parsed + entries == st.parsed;
    } else {
      var e := entries[0];
      var head := EntryLines(current, e);
      var rest := BodyLines(Some(e.section), entries[1..]);
      assert BodyLines(current, entries) == head + rest;
      var st1 := ParseState(e.section, st.count + 1, st.parsed + [e]);
      EntryLinesParse(st, current, e);
      ParseConcat(st, head, rest, st1);
      BodyParse(st1, Some(e.section), entries[1..]);
      AppendFirst(st.parsed, entries);
    }
  }

  predicate SingleLines(lines: seq<string>) {
    forall i :: 0 <= i < |lines| ==> '\n' !in lines[i]
  }

  lemma SingleLinesAppend(a: seq<string>, b: seq<string>)
    requires SingleLines(a) && SingleLines(b)
    ensures SingleLines(a + b)
  {
    forall i | 0 <= i < |a + b| ensures '\n' !in (a + b)[i] {
      if i < |a| { assert (a + b)[i] == a[i]; } else { assert (a + b)[i] == b[i - |a|]; }
    }
  }

  lemma EntryLinesSingleLine(current: Option<string>, e: Entry)
    requires RoundTrips(e)
    ensures SingleLines(EntryLines(current, e))
  {
    var s := SectionLine(e.section);
    assert '\n' !in s by { assert forall i :: 12 <= i < |s| ==> s[i] == e.section[i - 12]; }
    var t := TaskLine(e);
    assert '\n' !in t by {
      forall i | 0 <= i < |t| ensures t[i] != '\n' {
        var a := |e.name| + 4;
        var b := a + 3 + |e.id|;
        var c := b + 2 + |e.start|;
        if 4 <= i < a { assert t[i] == e.name[i - 4]; }
        else if a + 3 <= i < b { assert t[i] == e.id[i - a - 3]; }
        else if b + 2 <= i < c { assert t[i] == e.start[i - b - 2]; }
        else if c + 2 <= i { assert t[i] == e.end[i - c - 2]; }
      }
    }
  }

  lemma {:induction false} BodyLinesSingleLine(current: Option<string>, entries: seq<Entry>)
    requires forall i :: 0 <= i < |entries| ==> RoundTrips(entries[i])
    ensures SingleLines(BodyLines(current, entries))
    decreases |entries|
  {
    if |entries| > 0 {
      var e := entries[0];
      BodyLinesSingleLine(Some(e.section), entries[1..]);
      EntryLinesSingleLine(current, e);
      SingleLinesAppend(EntryLines(current, e), BodyLines(Some(e.section), entries[1..]));
    }
  }

  /** Importing what the emitter wrote gives the same entries back, in the
      same order, whenever every entry satisfies RoundTrips. */
  lemma ImportEmitted(entries: seq<Entry>)
    requires forall i :: 0 <= i < |entries| ==> RoundTrips(entries[i])
    ensures ImportEntries(GanttText(entries)) == entries
  {
    var lines := Header + BodyLines(None, entries);
    BodyLinesSingleLine(None, entries);
    SingleLinesAppend(Header, BodyLines(None, entries));
    SplitJoin(lines, '\n');
    ParseFromAppend(Start, Header, BodyLines(None, entries));
    HeaderParse(Start);
    BodyParse(Start, None, entries);
  }
}
