/** Reading back sectioned key-value text: the common reader for the three text backends. */
module Ini {
  import opened Strings

  datatype Entry = Entry(key: string, value: string)
  datatype Section = Section(header: string, entries: seq<Entry>)

  // ---- Lines ----

  function JoinLines(lines: seq<string>): string {
    if lines == [] then "" else JoinLines(lines[..|lines| - 1]) + lines[|lines| - 1] + "\n"
  }

  predicate OneLine(s: string) {
    '\n' !in s
  }

  lemma PushLine(lines: seq<string>, l: string)
    ensures JoinLines(lines + [l]) == JoinLines(lines) + l + "\n"
  {
    assert (lines + [l])[..|lines|] == lines;
  }

  lemma {:induction false} SplitAppend(s: string, l: string, seps: set<char>, sep: char)
    requires sep in seps && Free(l, seps)
    ensures Split(s + [sep] + l, seps) == Split(s, seps) + [l]
    decreases |s|
  {
    if s == "" {
      SplitFree(l, seps);
      assert ([sep] + l)[1..] == l;
      assert "" + [sep] + l == [sep] + l;
    } else {
      assert (s + [sep] + l)[1..] == s[1..] + [sep] + l;
      SplitAppend(s[1..], l, seps, sep);
    }
  }

  lemma {:induction false} SplitFree(l: string, seps: set<char>)
    requires Free(l, seps)
    ensures Split(l, seps) == [l]
  {
    if l != "" {
      SplitFree(l[1..], seps);
      assert [l[0]] + l[1..] == l;
    }
  }

  function LinesOf(text: string): seq<string> {
    Split(text, {'\n'})
  }

  /** Splitting joined lines gives the lines back, and an empty rest. */
  lemma {:induction false} LinesRoundTrip(lines: seq<string>)
    requires forall k :: 0 <= k < |lines| ==> OneLine(lines[k])
    ensures LinesOf(JoinLines(lines)) == lines + [""]
  {
    if lines != [] {
      var init, last := lines[..|lines| - 1], lines[|lines| - 1];
      LinesRoundTrip(init);
      LastPieceGrows(JoinLines(init), init, last);
      assert lines == init + [last];
    }
  }

  lemma LastPieceGrows(text: string, pieces: seq<string>, last: string)
    requires LinesOf(text) == pieces + [""] && OneLine(last)
    ensures LinesOf(text + last + "\n") == pieces + [last] + [""]
  {
    LastPieceExtends(text, last, {'\n'});
    assert "" + last == last;
    assert (pieces + [""])[..|pieces|] == pieces;
    SplitAppend(text + last, "", {'\n'}, '\n');
    assert text + last + ['\n'] + "" == text + last + "\n";
  }

  /** Appending text without separators extends the last piece. */
  lemma {:induction false} LastPieceExtends(s: string, l: string, seps: set<char>)
    requires Free(l, seps)
    ensures var p := Split(s, seps);
            Split(s + l, seps) == p[..|p| - 1] + [p[|p| - 1] + l]
    decreases |s|
  {
    if s == "" {
      SplitFree(l, seps);
      assert "" + l == l;
    } else {
      assert (s + l)[1..] == s[1..] + l;
      LastPieceExtends(s[1..], l, seps);
      var rest := Split(s[1..], seps);
      if s[0] !in seps && |rest| == 1 {
        assert [s[0]] + (rest[0] + l) == [s[0]] + rest[0] + l;
      }
    }
  }

  // ---- Sections ----

  function IndexOf(s: string, c: char): nat {
    if s == "" || s[0] == c then 0 else 1 + IndexOf(s[1..], c)
  }

  lemma {:induction false} IndexAfter(front: string, c: char, back: string)
    requires c !in front
    ensures IndexOf(front + [c] + back, c) == |front|
  {
    if front == "" {
      assert ("" + [c] + back)[0] == c;
    } else {
      assert (front + [c] + back)[1..] == front[1..] + [c] + back;
      IndexAfter(front[1..], c, back);
    }
  }

  predicate IsHeader(l: string) {
    |l| >= 2 && l[0] == '[' && l[|l| - 1] == ']'
  }

  /** Key and value around the first `=`, with the one space on each side that the spaced form has. */
  function ToEntry(l: string, spaced: bool): Entry {
    var at := IndexOf(l, '=');
    if at >= |l| then Entry(l, "")
    else if spaced then Entry(CutLast(l[..at]), CutFirst(l[at + 1..]))
    else Entry(l[..at], l[at + 1..])
  }

  function CutFirst(s: string): string {
    if s != "" && s[0] == ' ' then s[1..] else s
  }

  function CutLast(s: string): string {
    if s != "" && s[|s| - 1] == ' ' then s[..|s| - 1] else s
  }

  /** An empty line is skipped, a bracketed one opens a section, any other goes to the open section. */
  function AddLine(sections: seq<Section>, l: string, spaced: bool): seq<Section> {
    if l == "" then sections
    else if IsHeader(l) then sections + [Section(l[1..|l| - 1], [])]
    else if sections == [] then sections
    else
      var open := sections[|sections| - 1];
      sections[..|sections| - 1] + [open.(entries := open.entries + [ToEntry(l, spaced)])]
  }

  function AddLines(sections: seq<Section>, lines: seq<string>, spaced: bool): seq<Section> {
    if lines == [] then sections
    else AddLine(AddLines(sections, lines[..|lines| - 1], spaced), lines[|lines| - 1], spaced)
  }

  function Read(text: string, spaced: bool): seq<Section> {
    AddLines([], LinesOf(text), spaced)
  }

  lemma {:induction false} AddLinesConcat(sections: seq<Section>, a: seq<string>, b: seq<string>, spaced: bool)
    ensures AddLines(sections, a + b, spaced) == AddLines(AddLines(sections, a, spaced), b, spaced)
  {
    if b == [] {
      assert a + b == a;
    } else {
      assert (a + b)[..|a + b| - 1] == a + b[..|b| - 1];
      AddLinesConcat(sections, a, b[..|b| - 1], spaced);
    }
  }

  // ---- Writing entries so that they read back ----

  predicate Key(k: string) {
    k != "" && OneLine(k) && '=' !in k && k[0] != '['
  }

  predicate WellFormed(e: Entry) {
    Key(e.key) && OneLine(e.value)
  }

  lemma EntryOf(l: string, front: string, back: string, spaced: bool)
    requires l == front + ['='] + back && '=' !in front
    ensures ToEntry(l, spaced) == if spaced then Entry(CutLast(front), CutFirst(back)) else Entry(front, back)
  {
    IndexAfter(front, '=', back);
    assert l[..|front|] == front && l[|front| + 1..] == back;
  }

  lemma SpacedEntry(e: Entry)
    requires WellFormed(e)
    ensures ToEntry(e.key + " = " + e.value, true) == e
  {
    var front, back := e.key + " ", " " + e.value;
    EntryOf(e.key + " = " + e.value, front, back, true);
    assert front[|front| - 1] == ' ' && front[..|front| - 1] == e.key;
    assert back[0] == ' ' && back[1..] == e.value;
  }

  lemma TightEntry(e: Entry)
    requires WellFormed(e)
    ensures ToEntry(e.key + "=" + e.value, false) == e
  {
    EntryOf(e.key + "=" + e.value, e.key, e.value, false);
  }

  /** An entry written in either form reads back as itself. */
  lemma EntryReadsBack(e: Entry, spaced: bool)
    requires WellFormed(e)
    ensures EntryLine(e, spaced) != "" && !IsHeader(EntryLine(e, spaced)) && ToEntry(EntryLine(e, spaced), spaced) == e
  {
    if spaced {
      SpacedEntry(e);
    } else {
      TightEntry(e);
    }
    assert EntryLine(e, spaced)[0] == e.key[0];
  }

  function EntryLine(e: Entry, spaced: bool): string {
    e.key + (if spaced then " = " else "=") + e.value
  }

  function HeaderLine(header: string): string {
    "[" + header + "]"
  }

  function SectionLines(header: string, entries: seq<Entry>, spaced: bool): seq<string> {
    if entries == [] then [HeaderLine(header)]
    else
      var n := |entries| - 1;
      SectionLines(header, entries[..n], spaced) + [EntryLine(entries[n], spaced)]
  }

  predicate Writable(s: Section) {
    OneLine(s.header) && forall k :: 0 <= k < |s.entries| ==> WellFormed(s.entries[k])
  }

  lemma HeaderOpens(before: seq<Section>, header: string, spaced: bool)
    ensures AddLines(before, [HeaderLine(header)], spaced) == before + [Section(header, [])]
  {
    var l := HeaderLine(header);
    assert l[1..|l| - 1] == header;
    var only := [l];
    assert only[..0] == [];
  }

  lemma EntryJoins(before: seq<Section>, header: string, entries: seq<Entry>, e: Entry, spaced: bool)
    requires WellFormed(e)
    ensures AddLine(before + [Section(header, entries)], EntryLine(e, spaced), spaced)
        == before + [Section(header, entries + [e])]
  {
    EntryReadsBack(e, spaced);
    var all := before + [Section(header, entries)];
    assert all[..|all| - 1] == before;
  }

  /** The lines of a section read back as that section, after whatever was there. */
  lemma {:induction false} SectionReadsBack(before: seq<Section>, header: string, entries: seq<Entry>, spaced: bool)
    requires forall k :: 0 <= k < |entries| ==> WellFormed(entries[k])
    ensures AddLines(before, SectionLines(header, entries, spaced), spaced) == before + [Section(header, entries)]
    decreases |entries|
  {
    if entries == [] {
      HeaderOpens(before, header, spaced);
    } else {
      var n := |entries| - 1;
      SectionReadsBack(before, header, entries[..n], spaced);
      EntryJoins(before, header, entries[..n], entries[n], spaced);
      var lines := SectionLines(header, entries[..n], spaced);
      assert (lines + [EntryLine(entries[n], spaced)])[..|lines|] == lines;
      assert entries[..n] + [entries[n]] == entries;
    }
  }

  lemma BlankSkipped(sections: seq<Section>, spaced: bool)
    ensures AddLines(sections, [""], spaced) == sections
  {
    var blank := [""];
    assert blank[..0] == [];
  }

  lemma {:induction false} SectionLinesOneLine(header: string, entries: seq<Entry>, spaced: bool)
    requires Writable(Section(header, entries))
    ensures forall k :: 0 <= k < |SectionLines(header, entries, spaced)| ==>
        OneLine(SectionLines(header, entries, spaced)[k])
    decreases |entries|
  {
    if entries != [] {
      SectionLinesOneLine(header, entries[..|entries| - 1], spaced);
    }
  }

  /** Text made of one-line lines is read line by line. */
  lemma ReadsByLines(lines: seq<string>, spaced: bool)
    requires forall k :: 0 <= k < |lines| ==> OneLine(lines[k])
    ensures Read(JoinLines(lines), spaced) == AddLines([], lines, spaced)
  {
    LinesRoundTrip(lines);
    AddLinesConcat([], lines, [""], spaced);
    BlankSkipped(AddLines([], lines, spaced), spaced);
  }
}
