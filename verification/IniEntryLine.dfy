/** The lines the printer writes, read one at a time. */
module IniEntryLine {
  import opened CText
  import opened CBuffers
  import opened Sscanf
  import opened Dictionary
  import opened IniLine
  import opened IniLoad
  import opened IniDump

  /** One line, no terminator inside. */
  ghost predicate OneLine(s: string) {
    Without(s, '\n') && Without(s, NUL)
  }

  /** A section name that survives its `[name]` line. */
  ghost predicate PrintableSection(s: string) {
    && s != "" && Trimmed(s) && Lower(s) == s && OneLine(s)
    && Without(s, ']')
    && |s| + 3 < ASCIILINESZ
  }

  ghost predicate PrintableKey(k: string) {
    && k != "" && Trimmed(k) && Lower(k) == k && OneLine(k)
    && Without(k, '=') && k[0] != '#' && k[0] != ';' && k[0] != '['
  }

  /** What the loader makes of a printed value. */
  function ReadBack(v: string): string {
    EntryValue(Strip(v))
  }

  /** Its line stands alone: it fits the buffer and no continuation joins the next line to it. */
  predicate StandsAlone(k: string, v: string) {
    |EntryLine(k, v)| < ASCIILINESZ && !EndsWith(Strip(v), '\\')
  }

  /** No blank at the ends, no comment mark, not readable as quoted. */
  ghost predicate ReadsBack(v: string) {
    && Trimmed(v) && Without(v, ';') && Without(v, '#')
    && QuotedBy(v, '"').None? && QuotedBy(v, '\'').None? && v != "\"\"" && v != "''"
  }

  /** A value that survives its `key = value` line. */
  ghost predicate Survives(k: string, v: string) {
    ReadsBack(v) && !EndsWith(v, '\\') && |EntryLine(k, v)| < ASCIILINESZ
  }

  // Values.

  lemma StripWhole(v: string)
    ensures |Strip(v)| <= |v| && (|Strip(v)| == |v| ==> Strip(v) == v)
  {
    hide Strip;
    var a, b := StripSplits(v);
    assert |Strip(v)| == |v| ==> a == "" && b == "";
  }

  /** Reading never makes a value longer, and quotes or a comment make it shorter. */
  lemma EntryValueShrinks(r: string)
    ensures |EntryValue(r)| <= |r|
    ensures QuotedBy(r, '"').Some? || QuotedBy(r, '\'').Some? ==> |EntryValue(r)| < |r|
    ensures Span(r, {';', '#'}, true) != r && QuotedBy(r, '"').None? && QuotedBy(r, '\'').None? ==>
              |EntryValue(r)| < |r|
  {
    hide Strip, Span;
    SpanIsPrefix(r, {';', '#'}, true);
    StripWhole(Span(r, {';', '#'}, true));
    if r != "" {
      SpanIsPrefix(r[1..], {'"'}, true);
      SpanIsPrefix(r[1..], {'\''}, true);
    }
  }

  /** The values that are read back as they are, exactly. */
  lemma ReadsBackIff(v: string)
    ensures ReadBack(v) == v <==> ReadsBack(v)
  {
    hide Strip, QuotedBy, Span;
    StripWhole(v);
    if ReadsBack(v) {
      StripOfTrimmed(v);
      SpanUnique(v, "", {';', '#'}, true);
      assert v + "" == v;
    }
    if ReadBack(v) == v {
      var _, _ := StripSplits(v);
      EntryValueShrinks(Strip(v));
      assert Strip(v) == v && Span(v, {';', '#'}, true) == v;
      SpanIsPrefix(v, {';', '#'}, true);
      assert forall i :: 0 <= i < |v| ==> v[i] in v && InSet(v[i], {';', '#'}, true);
    }
  }

  lemma TrimmedWhenReadsBack(v: string)
    requires ReadsBack(v)
    ensures Strip(v) == v
  {
    StripOfTrimmed(v);
  }

  lemma SurvivesIff(k: string, v: string)
    ensures Survives(k, v) <==> StandsAlone(k, v) && ReadBack(v) == v
  {
    hide ReadBack, ReadsBack, Strip;
    ReadsBackIff(v);
    if ReadsBack(v) {
      TrimmedWhenReadsBack(v);
    }
  }

  // Lines.

  lemma PaddedKey(k: string) returns (pad: string)
    ensures PadRight30(k) == k + pad
    ensures forall i :: 0 <= i < |pad| ==> pad[i] == ' '
  {
    if |k| < 30 {
      pad := Spaces(30 - |k|);
      SpacesBlank(30 - |k|);
    } else {
      pad := "";
      assert k + pad == k;
    }
  }

  lemma RTrimBehind(a: string, b: string)
    requires a != "" && !IsSpace(a[|a| - 1])
    ensures RTrim(a + b) == a + RTrim(b)
  {
    hide RTrim;
    var c := RTrimSplits(b);
    assert a + b == (a + RTrim(b)) + c;
    LastOfSum(a, RTrim(b));
    RTrimDropsBlanks(a + RTrim(b), c);
  }

  /** The right end of a value behind a blank. */
  lemma TailOfValue(v: string)
    ensures LTrim(RTrim(" " + v)) == Strip(v)
    ensures EndsWith(RTrim(" " + v), '\\') <==> EndsWith(Strip(v), '\\')
  {
    hide Strip, LTrim, RTrim;
    var a, b := StripSplits(v);
    var m := Strip(v);
    assert " " + v == (" " + a) + m + b;
    if m == "" {
      assert " " + v == "" + (" " + a + b);
      RTrimDropsBlanks("", " " + a + b);
      LTrimDropsBlanks("", "");
      assert "" + "" == "";
    } else {
      LastOfSum(" " + a, m);
      RTrimDropsBlanks((" " + a) + m, b);
      LTrimDropsBlanks(" " + a, m);
    }
  }

  /** What is left of an entry line once its right end is stripped. */
  lemma StrippedEntry(k: string, v: string) returns (gap: string)
    ensures Blank(gap) && Without(gap, '=')
    ensures RTrim(EntryText(k, v)) == (k + gap) + "=" + RTrim(" " + v)
  {
    hide RTrim;
    var pad := PaddedKey(k);
    gap := pad + " ";
    var head := (k + gap) + "=";
    assert EntryText(k, v) == head + (" " + v);
    RTrimBehind(head, " " + v);
  }

  lemma EntryTextPlain(k: string, v: string)
    requires OneLine(k) && OneLine(v)
    ensures OneLine(EntryText(k, v)) && EntryText(k, v) != ""
  {
    var pad := PaddedKey(k);
    assert EntryText(k, v) == k + pad + " = " + v;
  }

  /** A key, a gap, an equals sign and a right-trimmed tail are an entry. */
  lemma PairProcess(st: Loader, k: string, gap: string, tail: string)
    requires PrintableKey(k) && Blank(gap) && Without(gap, '=')
    requires tail != "" ==> !IsSpace(tail[|tail| - 1])
    ensures Process(st, (k + gap) + "=" + tail) ==
            st.(store := st.store[st.section + ":" + k := Some(EntryValue(LTrim(tail)))])
  {
    hide Classify, EntryValue, Strip, LTrim;
    var line := (k + gap) + "=" + tail;
    assert line[0] == k[0];
    assert line[|line| - 1] == if tail == "" then '=' else tail[|tail| - 1];
    StripOfTrimmed(line);
    ClassifyEntry(line, st.section, k + gap, tail);
    assert k + gap == "" + k + gap;
    StripUnique(k + gap, "", k, gap);
  }

  /** A printed entry is read as `ReadBack` of its value; it is continued exactly when the value ends
      in a backslash. */
  lemma EntryProcess(st: Loader, k: string, v: string)
    requires PrintableKey(k)
    ensures Process(st, RTrim(EntryText(k, v))) == st.(store := st.store[st.section + ":" + k := Some(ReadBack(v))])
    ensures EndsWith(RTrim(EntryText(k, v)), '\\') <==> EndsWith(Strip(v), '\\')
  {
    hide Process, EntryText, EntryValue, Strip, RTrim, LTrim, PrintableKey;
    var gap := StrippedEntry(k, v);
    var tail := RTrim(" " + v);
    var _ := RTrimSplits(" " + v);
    TailOfValue(v);
    PairProcess(st, k, gap, tail);
    LastOfSum((k + gap) + "=", tail);
  }

  /** So a line that stands alone stores its value unchanged exactly when the value reads back. */
  lemma EntrySurvivesIff(st: Loader, k: string, v: string)
    requires PrintableKey(k)
    ensures Process(st, RTrim(EntryText(k, v))) == st.(store := st.store[st.section + ":" + k := Some(v)]) <==>
            ReadsBack(v)
  {
    hide Process, RTrim, ReadBack, ReadsBack, EntryText, PrintableKey;
    EntryProcess(st, k, v);
    ReadsBackIff(v);
    var q := st.section + ":" + k;
    assert st.store[q := Some(v)] == st.store[q := Some(ReadBack(v))] ==> Some(v) == Some(ReadBack(v)) by {
      assert st.store[q := Some(v)][q] == Some(v);
      assert st.store[q := Some(ReadBack(v))][q] == Some(ReadBack(v));
    }
  }

  lemma SectionProcess(st: Loader, s: string)
    requires PrintableSection(s)
    ensures var line := "[" + s + "]";
            RTrim(line) == line && !EndsWith(line, '\\') &&
            Process(st, line) == st.(section := s, store := st.store[s := None])
  {
    hide Classify;
    var line := "[" + s + "]";
    assert line[0] == '[' && line[|line| - 1] == ']';
    StripOfTrimmed(line);
    assert line == "[" + s + "]" + "";
    ClassifySection(line, st.section, s, "");
    StripOfTrimmed(s);
  }

  /** A file of one section with one entry. */
  lemma SectionAndEntry(s: string, line: string, k: string, v: string)
    requires PrintableSection(s)
    requires line != "" && OneLine(line) && |line| + 1 < ASCIILINESZ && !EndsWith(RTrim(line), '\\')
    requires Classify(RTrim(line), s) == Value(k, v)
    ensures LoadFile("[" + s + "]\n" + (line + "\n")) == Some(map[s := None, s + ":" + k := Some(v)])
  {
    hide Run, Classify, RTrim;
    var head := "[" + s + "]";
    SectionProcess(INIT, s);
    var mid := INIT.(section := s, store := map[s := None]);
    var end := mid.(store := map[s := None, s + ":" + k := Some(v)]);
    assert INIT.store[s := None] == map[s := None];
    assert mid.store[s + ":" + k := Some(v)] == end.store;
    RunLine(INIT, head, line + "\n");
    assert "[" + s + "]\n" + (line + "\n") == head + "\n" + (line + "\n");
    assert line + "\n" + "" == line + "\n";
    RunLine(mid, line, "");
    RunEmpty(end);
  }
}
