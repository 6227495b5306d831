/** One line of an ini file: the classifier, and what each spelling of an entry means. */
module IniLine {
  import opened CText
  import opened CBuffers
  import opened Sscanf

  datatype LineStatus = LineError | LineEmpty | LineComment | LineSection | LineValue

  /** The status of a line together with the text it leaves in the output buffers. */
  datatype Parsed = Error | Empty | Comment | Section(name: string) | Value(key: string, value: string)

  const PAIR_FORMAT: Format := [ScanSet({'='}, true), Blanks, Literal('='), Blanks]
  const SECTION_FORMAT: Format := [Literal('['), ScanSet({']'}, true)]
  const DOUBLE_QUOTED: Format := PAIR_FORMAT + [Literal('"'), ScanSet({'"'}, true), Literal('"')]
  const SINGLE_QUOTED: Format := PAIR_FORMAT + [Literal('\''), ScanSet({'\''}, true), Literal('\'')]
  const UNQUOTED: Format := PAIR_FORMAT + [ScanSet({';', '#'}, true)]
  const NO_VALUE: Format := PAIR_FORMAT + [ScanSet({';', '#'}, false)]
  const NOTHING_AFTER: Format := [ScanSet({'='}, true), Blanks, ScanSet({'='}, false)]

  /** strstrip then strlwc with the line's length as the buffer size. */
  function CleanName(raw: string, len: nat): string
    requires len > 0
  {
    Lower(Take(Strip(raw), len - 1))
  }

  /** sscanf cannot read '' or "" as an empty value, so it is mended afterwards. */
  function Mend(value: string): string {
    if value == "\"\"" || value == "''" then "" else value
  }

  predicate IsComment(line: string) {
    line != "" && (line[0] == '#' || line[0] == ';')
  }

  predicate IsSection(line: string) {
    line != "" && line[0] == '[' && line[|line| - 1] == ']'
  }

  /** The patterns of an entry, tried one after another. */
  function ClassifyPair(line: string): (r: Parsed)
    requires line != ""
    ensures r.Value? || r.Error?
  {
    var len := |line|;
    var quoted := if |Scan(DOUBLE_QUOTED, line)| == 2 then Scan(DOUBLE_QUOTED, line) else Scan(SINGLE_QUOTED, line);
    var unquoted := Scan(UNQUOTED, line);
    var bare := if |Scan(NO_VALUE, line)| == 2 then Scan(NO_VALUE, line) else Scan(NOTHING_AFTER, line);
    if |quoted| == 2 then
      Value(CleanName(quoted[0], len), quoted[1])
    else if |unquoted| == 2 then
      Value(CleanName(unquoted[0], len), Mend(Strip(unquoted[1])))
    else if |bare| == 2 then
      Value(CleanName(bare[0], len), "")
    else
      Error
  }

  /** iniparser_line: the cascade of patterns. `section` is the text left by earlier lines,
      which a section line whose name part is empty does not overwrite. */
  function Classify(input: string, section: string): Parsed {
    var line := Strip(input);
    var len := |line|;
    if len < 1 then
      Empty
    else if IsComment(line) then
      Comment
    else if IsSection(line) then
      var got := Scan(SECTION_FORMAT, line);
      Section(CleanName(if |got| == 1 then got[0] else section, len))
    else
      ClassifyPair(line)
  }

  /** One sscanf call with a key and a value buffer. */
  method ScanInto(fmt: Format, line: string, key: array<char>, value: array<char>) returns (n: nat)
    requires key != value && |line| < key.Length && |line| < value.Length && Without(line, NUL)
    modifies key, value
    ensures n == |Scan(fmt, line)|
    ensures n >= 1 ==> Terminated(key[..]) && TextOf(key[..]) == Scan(fmt, line)[0]
    ensures n >= 2 ==> Terminated(value[..]) && TextOf(value[..]) == Scan(fmt, line)[1]
  {
    var got := Scan(fmt, line);
    ScanBounded(fmt, line, NUL);
    n := |got|;
    if n >= 1 {
      StoreText(got[0], key);
    }
    if n >= 2 {
      StoreText(got[1], value);
    }
  }

  method CleanBuffer(name: array<char>, len: nat)
    requires Terminated(name[..]) && len > 0
    modifies name
    ensures Terminated(name[..]) && TextOf(name[..]) == CleanName(old(TextOf(name[..])), len)
  {
    var _ := StrStrip(name);
    TerminatedLength(name[..]);
    var _ := StrLwc(name, name, len);
  }

  /** The entry patterns over the key and value buffers. */
  method ParsePair(line: string, key: array<char>, value: array<char>) returns (found: bool)
    requires key != value && line != "" && Without(line, NUL)
    requires |line| < key.Length && |line| < value.Length
    modifies key, value
    ensures found <==> ClassifyPair(line).Value?
    ensures found ==> Terminated(key[..]) && TextOf(key[..]) == ClassifyPair(line).key
    ensures found ==> Terminated(value[..]) && TextOf(value[..]) == ClassifyPair(line).value
  {
    hide Scan, Strip, CleanName, TextOf;
    var len := |line|;
    var n := ScanInto(DOUBLE_QUOTED, line, key, value);
    if n != 2 {
      n := ScanInto(SINGLE_QUOTED, line, key, value);
    }
    if n == 2 {
      CleanBuffer(key, len);
      return true;
    }
    n := ScanInto(UNQUOTED, line, key, value);
    if n == 2 {
      CleanBuffer(key, len);
      var _ := StrStrip(value);
      if TextOf(value[..]) == "\"\"" || TextOf(value[..]) == "''" {
        StoreText("", value);
      }
      return true;
    }
    n := ScanInto(NO_VALUE, line, key, value);
    if n != 2 {
      n := ScanInto(NOTHING_AFTER, line, key, value);
    }
    if n == 2 {
      CleanBuffer(key, len);
      StoreText("", value);
      return true;
    }
    return false;
  }

  /** iniparser_line over its three output buffers. */
  method ParseLine(input: string, section: array<char>, key: array<char>, value: array<char>) returns (sta: LineStatus)
    requires section != key && section != value && key != value
    requires |input| < section.Length && |input| < key.Length && |input| < value.Length
    requires Without(input, NUL) && Terminated(section[..])
    modifies section, key, value
    ensures Terminated(section[..])
    ensures match Classify(input, old(TextOf(section[..])))
      case Error => sta == LineError && section[..] == old(section[..])
      case Empty => sta == LineEmpty && section[..] == old(section[..])
      case Comment => sta == LineComment && section[..] == old(section[..])
      case Section(name) => sta == LineSection && TextOf(section[..]) == name
      case Value(k, v) =>
        && sta == LineValue && section[..] == old(section[..])
        && Terminated(key[..]) && TextOf(key[..]) == k
        && Terminated(value[..]) && TextOf(value[..]) == v
  {
    hide ClassifyPair;
    var buf := new char[|input| + 1];
    StoreText(input, buf);
    var len := StrStrip(buf);
    var line := TextOf(buf[..]);
    TerminatedLength(buf[..]);
    var _, _ := StripSplits(input);
    if len < 1 {
      return LineEmpty;
    }
    if buf[0] == '#' || buf[0] == ';' {
      return LineComment;
    }
    if buf[0] == '[' && buf[len - 1] == ']' {
      var got := Scan(SECTION_FORMAT, line);
      ScanBounded(SECTION_FORMAT, line, NUL);
      if |got| == 1 {
        StoreText(got[0], section);
      }
      CleanBuffer(section, len);
      return LineSection;
    }
    var found := ParsePair(line, key, value);
    return if found then LineValue else LineError;
  }

  // What the cascade amounts to.

  /** The text between two `q`s at the start of `r`, the closing one being optional. */
  function QuotedBy(r: string, q: char): Option<string> {
    if r != "" && r[0] == q && Span(r[1..], {q}, true) != "" then Some(Span(r[1..], {q}, true)) else None
  }

  /** The value of an entry, from the first nonblank after its equals sign. */
  function EntryValue(r: string): string {
    if QuotedBy(r, '"').Some? then QuotedBy(r, '"').value
    else if QuotedBy(r, '\'').Some? then QuotedBy(r, '\'').value
    else Mend(Strip(Span(r, {';', '#'}, true)))
  }

  lemma ScanQuoted(q: char, r: string)
    ensures Scan([Literal(q), ScanSet({q}, true), Literal(q)], r) ==
            if QuotedBy(r, q).Some? then [QuotedBy(r, q).value] else []
  {
    var fmt := [Literal(q), ScanSet({q}, true), Literal(q)];
    assert fmt[1..] == [ScanSet({q}, true), Literal(q)];
    assert fmt[1..][1..] == [Literal(q)];
    if r != "" && r[0] == q {
      var t := Span(r[1..], {q}, true);
      SpanIsPrefix(r[1..], {q}, true);
      assert Scan([Literal(q)], r[1..][|t|..]) == [];
    }
  }

  lemma ScanSetOnly(chars: set<char>, negated: bool, r: string)
    ensures Scan([ScanSet(chars, negated)], r) ==
            if Span(r, chars, negated) == "" then [] else [Span(r, chars, negated)]
  {
    SpanIsPrefix(r, chars, negated);
    var fmt := [ScanSet(chars, negated)];
    assert fmt[1..] == [];
    assert Scan([], r[|Span(r, chars, negated)|..]) == [];
  }

  lemma ScanNothingAfter(k: string)
    requires k != "" && Without(k, '=')
    ensures Scan(NOTHING_AFTER, k + "=") == [k, "="]
  {
    SpanUnique(k, "=", {'='}, true);
    assert (k + "=")[|k|..] == "=";
    assert NOTHING_AFTER[1..] == [Blanks, ScanSet({'='}, false)];
    assert NOTHING_AFTER[1..][1..] == [ScanSet({'='}, false)];
    assert LTrim("=") == "=";
    SpanUnique("=", "", {'='}, false);
    assert "=" + "" == "=";
    ScanSetOnly({'='}, false, "=");
  }

  lemma ScanNothingAfterFails(s: string)
    requires Without(s, '=') || s[0] == '='
    ensures |Scan(NOTHING_AFTER, s)| < 2
  {
    assert NOTHING_AFTER[1..] == [Blanks, ScanSet({'='}, false)];
    assert NOTHING_AFTER[1..][1..] == [ScanSet({'='}, false)];
    if Without(s, '=') {
      SpanUnique(s, "", {'='}, true);
      assert s + "" == s && s[|s|..] == "";
      assert Scan([Blanks, ScanSet({'='}, false)], "") == Scan([ScanSet({'='}, false)], "") == [];
    }
  }

  lemma StripIsShort(s: string)
    ensures |Strip(s)| <= |s|
  {
    var _, _ := StripSplits(s);
  }

  lemma NothingLeft(line: string, k: string, rest: string)
    requires line == k + "=" + rest && Trimmed(line) && LTrim(rest) == ""
    ensures line == k + "="
  {
    var a := LTrimSplits(rest);
    assert rest == a;
    LastOfSum(k + "=", rest);
  }

  /** Text that does not start a value starts with a comment mark or is empty. */
  lemma NoSpan(r: string)
    ensures Span(r, {';', '#'}, true) == "" ==> EntryValue(r) == "" || QuotedBy(r, '"').Some? || QuotedBy(r, '\'').Some?
    ensures Span(r, {';', '#'}, true) == "" && r != "" ==> Span(r, {';', '#'}, false) != ""
    ensures r == "" ==> EntryValue(r) == "" && Span(r, {';', '#'}, true) == "" && Span(r, {';', '#'}, false) == ""
  {
  }

  /** A line that is neither a comment nor a section and has text before its first equals
      sign is an entry: the five patterns together compute `EntryValue`. */
  lemma ClassifyEntry(input: string, section: string, k: string, rest: string)
    requires Strip(input) == k + "=" + rest
    requires k != "" && Without(k, '=')
    requires !IsComment(Strip(input)) && !IsSection(Strip(input))
    ensures Classify(input, section) == Value(Lower(Strip(k)), EntryValue(LTrim(rest)))
  {
    hide Scan, Span, Strip, LTrim, RTrim;
    var line, r := Strip(input), LTrim(rest);
    NoSpan(r);
    StripIsShort(k);
    ScanPair([Literal('"'), ScanSet({'"'}, true), Literal('"')], k, rest);
    ScanQuoted('"', r);
    ScanPair([Literal('\''), ScanSet({'\''}, true), Literal('\'')], k, rest);
    ScanQuoted('\'', r);
    ScanPair([ScanSet({';', '#'}, true)], k, rest);
    ScanSetOnly({';', '#'}, true, r);
    ScanPair([ScanSet({';', '#'}, false)], k, rest);
    ScanSetOnly({';', '#'}, false, r);
    if r == "" {
      var _, _ := StripSplits(input);
      NothingLeft(line, k, rest);
      ScanNothingAfter(k);
    }
  }

  /** Every other line without an equals sign, or with nothing before it, is a syntax error. */
  lemma ClassifyError(input: string, section: string)
    requires Strip(input) != "" && !IsComment(Strip(input)) && !IsSection(Strip(input))
    requires Without(Strip(input), '=') || Strip(input)[0] == '='
    ensures Classify(input, section) == Error
  {
    var line := Strip(input);
    ScanNoPair([Literal('"'), ScanSet({'"'}, true), Literal('"')], line);
    ScanNoPair([Literal('\''), ScanSet({'\''}, true), Literal('\'')], line);
    ScanNoPair([ScanSet({';', '#'}, true)], line);
    ScanNoPair([ScanSet({';', '#'}, false)], line);
    ScanNothingAfterFails(line);
  }

  /** The lines that make a file unloadable, exactly. */
  lemma ErrorIff(input: string, section: string)
    ensures var line := Strip(input);
            Classify(input, section).Error? <==>
            && line != "" && line[0] != ';' && line[0] != '#'
            && !(line[0] == '[' && line[|line| - 1] == ']')
            && (line[0] == '=' || Without(line, '='))
  {
    var line := Strip(input);
    if line != "" && !IsComment(line) && !IsSection(line) {
      if Without(line, '=') || line[0] == '=' {
        ClassifyError(input, section);
      } else {
        var n := IndexOf(line, '=');
        assert n == |line| ==> Without(line, '=');
        var k, rest := line[..n], line[n + 1..];
        assert line == k + "=" + rest;
        ClassifyEntry(input, section, k, rest);
      }
    }
  }

  /** What kind of line the characters make, for every line. */
  lemma LineKinds(input: string, section: string)
    ensures var line, r := Strip(input), Classify(input, section);
            && (r == Empty <==> line == "")
            && (r == Comment <==> line != "" && (line[0] == ';' || line[0] == '#'))
            && (r.Section? <==> line != "" && line[0] == '[' && line[|line| - 1] == ']')
            && (r.Value? <==>
                  && line != "" && line[0] != ';' && line[0] != '#'
                  && !(line[0] == '[' && line[|line| - 1] == ']')
                  && line[0] != '=' && !Without(line, '='))
  {
    hide Strip, ClassifyPair;
    ErrorIff(input, section);
  }

  /** A section line without a name cleans the name that is left from before, to less than its length. */
  lemma NamelessSection(input: string, section: string)
    requires |Strip(input)| >= 2 && Strip(input)[0] == '[' && Strip(input)[1] == ']'
    requires Strip(input)[|Strip(input)| - 1] == ']'
    ensures Classify(input, section) == Section(Lower(Take(Strip(section), |Strip(input)| - 1)))
  {
    hide Strip;
    var line := Strip(input);
    assert SECTION_FORMAT[1..] == [ScanSet({']'}, true)];
    ScanSetOnly({']'}, true, line[1..]);
  }

  /** A section line with a name: the name is what stands before the first bracket. */
  lemma ClassifySection(input: string, section: string, name: string, rest: string)
    requires Strip(input) == "[" + name + "]" + rest && IsSection(Strip(input))
    requires name != "" && Without(name, ']')
    ensures Classify(input, section) == Section(Lower(Strip(name)))
  {
    var line := Strip(input);
    assert line[1..] == name + ("]" + rest);
    SpanUnique(name, "]" + rest, {']'}, true);
    assert SECTION_FORMAT[1..] == [ScanSet({']'}, true)];
    ScanSetOnly({']'}, true, line[1..]);
    StripIsShort(name);
  }

  // Spelling independence.

  datatype Spelling = Plain | SingleQuotes | DoubleQuotes

  function Spell(v: string, sp: Spelling): string {
    match sp
    case Plain => v
    case SingleQuotes => "'" + v + "'"
    case DoubleQuotes => "\"" + v + "\""
  }

  /** Nothing, or a comment mark with any text behind it. */
  predicate CommentTail(c: string) {
    c == "" || c[0] == ';' || c[0] == '#'
  }

  lemma EntryValueOfPlain(v: string, gap: string, comment: string)
    requires v != "" && Trimmed(v)
    requires Without(v, ';') && Without(v, '#') && v[0] != '"' && v[0] != '\''
    requires Blank(gap) && CommentTail(comment)
    ensures EntryValue(v + (gap + comment)) == v
  {
    hide Strip;
    var r := v + (gap + comment);
    assert r[0] == v[0];
    assert r == (v + gap) + comment;
    SpanUnique(v + gap, comment, {';', '#'}, true);
    assert v + gap == "" + v + gap;
    StripUnique(v + gap, "", v, gap);
  }

  /** Between quotes everything but the quote itself is kept, whatever follows. */
  lemma EntryValueOfQuoted(q: char, v: string, rest: string)
    requires q == '"' || q == '\''
    requires v != "" && Without(v, q)
    ensures EntryValue([q] + v + [q] + rest) == v
  {
    hide Strip;
    var r := [q] + v + [q] + rest;
    assert r[0] == q;
    assert r[1..] == v + ([q] + rest);
    SpanUnique(v, [q] + rest, {q}, true);
  }

  /** A missing closing quote is forgiven. */
  lemma EntryValueUnclosed(q: char, v: string)
    requires q == '"' || q == '\''
    requires v != "" && Without(v, q)
    ensures EntryValue([q] + v) == v
  {
    hide Strip;
    var r := [q] + v;
    assert r[1..] == v && v + "" == v;
    SpanUnique(v, "", {q}, true);
  }

  /** Nothing, or a pair of quotes with nothing between them, is an empty value, comment or not. */
  lemma EntryValueEmpty(quotes: string, gap: string, comment: string)
    requires quotes == "" || quotes == "\"\"" || quotes == "''"
    requires Blank(gap) && CommentTail(comment)
    ensures EntryValue(quotes + (gap + comment)) == ""
  {
    hide Strip;
    var r := quotes + (gap + comment);
    assert r == (quotes + gap) + comment;
    SpanUnique(quotes + gap, comment, {';', '#'}, true);
    StripUnique(quotes + gap, if quotes == "" then gap else "", quotes, if quotes == "" then "" else gap);
    assert quotes != "" ==> r[0] == quotes[0] && r[1] == quotes[0];
  }

  lemma EntryValueOfSpelling(v: string, sp: Spelling, gap: string, comment: string)
    requires v != "" && Trimmed(v)
    requires Without(v, ';') && Without(v, '#') && Without(v, '"') && Without(v, '\'')
    requires Blank(gap) && CommentTail(comment)
    ensures EntryValue(Spell(v, sp) + (gap + comment)) == v
  {
    hide EntryValue;
    match sp
    case Plain => EntryValueOfPlain(v, gap, comment);
    case SingleQuotes => EntryValueOfQuoted('\'', v, gap + comment);
    case DoubleQuotes => EntryValueOfQuoted('"', v, gap + comment);
  }

  /** Stripping the right end of a blank gap and a comment leaves a gap and a comment. */
  lemma StrippedTail(gap: string, comment: string) returns (gap': string, comment': string, b: string)
    requires Blank(gap) && CommentTail(comment)
    ensures gap + comment == gap' + comment' + b && Blank(b)
    ensures Blank(gap') && CommentTail(comment')
    ensures gap' + comment' != "" ==> !IsSpace((gap' + comment')[|gap' + comment'| - 1])
  {
    if comment == "" {
      gap', comment', b := "", "", gap;
    } else {
      b := RTrimSplits(comment);
      gap', comment' := gap, RTrim(comment);
      assert comment == comment' + b;
      assert (comment' + b)[0] == comment[0];
      assert comment'[0] == comment[0];
      assert (gap' + comment')[|gap' + comment'| - 1] == comment'[|comment'| - 1];
      assert gap + comment == gap' + comment' + b;
    }
  }

  lemma SpellEnds(v: string, sp: Spelling)
    requires v != "" && Trimmed(v)
    ensures var s := Spell(v, sp); s != "" && !IsSpace(s[0]) && !IsSpace(s[|s| - 1])
  {
  }

  /** An entry as it is spelled, up to the end of its value. */
  function Core(k: string, b1: string, b2: string, spelled: string): string {
    k + b1 + "=" + (b2 + spelled)
  }

  /** The outer blanks of a spelled entry go, its comment keeps no blank behind it. */
  lemma SpelledLine(b0: string, core: string, gap: string, comment: string) returns (gap': string, comment': string)
    requires Blank(b0) && Blank(gap) && CommentTail(comment)
    requires core != "" && Trimmed(core)
    ensures Blank(gap') && CommentTail(comment')
    ensures Strip(b0 + core + (gap + comment)) == core + (gap' + comment')
  {
    hide Strip, CommentTail;
    var b;
    gap', comment', b := StrippedTail(gap, comment);
    var tail := gap' + comment';
    var line := core + tail;
    assert b0 + core + (gap + comment) == b0 + line + b;
    assert line[0] == core[0];
    assert line[|line| - 1] == if tail == "" then core[|core| - 1] else tail[|tail| - 1];
    StripUnique(b0 + core + (gap + comment), b0, line, b);
  }

  lemma CoreEnds(k: string, b1: string, b2: string, spelled: string)
    requires k != "" && !IsSpace(k[0]) && spelled != "" && !IsSpace(spelled[|spelled| - 1])
    ensures var core := Core(k, b1, b2, spelled); core != "" && core[0] == k[0] && Trimmed(core)
  {
    var core := Core(k, b1, b2, spelled);
    assert core[0] == k[0];
    assert core[|core| - 1] == spelled[|spelled| - 1];
  }

  lemma BlankHasNoEquals(b: string)
    requires Blank(b)
    ensures Without(b, '=')
  {
  }

  /** The entry line with its outer blanks stripped, classified. */
  lemma SpelledEntry(input: string, k: string, b1: string, b2: string, v: string, sp: Spelling,
                     gap: string, comment: string, section: string)
    requires Blank(b1) && Blank(b2) && Blank(gap) && CommentTail(comment)
    requires k != "" && Trimmed(k) && Without(k, '=')
    requires v != "" && Trimmed(v)
    requires Without(v, ';') && Without(v, '#') && Without(v, '"') && Without(v, '\'')
    requires Strip(input) == Core(k, b1, b2, Spell(v, sp)) + (gap + comment)
    requires !IsComment(Strip(input)) && !IsSection(Strip(input))
    ensures Classify(input, section) == Value(Lower(k), v)
  {
    hide EntryValue, Strip, LTrim, Classify, IsComment, IsSection, CommentTail;
    var tail := gap + comment;
    var s := Spell(v, sp);
    var rest := b2 + (s + tail);
    assert Strip(input) == (k + b1) + "=" + rest;
    assert Without(k + b1, '=') by {
      BlankHasNoEquals(b1);
    }
    ClassifyEntry(input, section, k + b1, rest);
    SpellEnds(v, sp);
    assert (s + tail)[0] == s[0];
    LTrimDropsBlanks(b2, s + tail);
    EntryValueOfSpelling(v, sp, gap, comment);
    assert k + b1 == "" + k + b1;
    StripUnique(k + b1, "", k, b1);
  }

  /** However an entry is spelled - blanks around key, equals sign and value, quotes or none,
      a trailing comment or none - it parses to the same lowercase key and the same value. */
  lemma SpellingIndependent(b0: string, k: string, b1: string, b2: string, v: string, sp: Spelling,
                            gap: string, comment: string, section: string)
    requires Blank(b0) && Blank(b1) && Blank(b2) && Blank(gap) && CommentTail(comment)
    requires k != "" && Trimmed(k) && Without(k, '=') && !IsComment(k)
    requires v != "" && Trimmed(v)
    requires Without(v, ';') && Without(v, '#') && Without(v, '"') && Without(v, '\'')
    requires !IsSection(Strip(b0 + Core(k, b1, b2, Spell(v, sp)) + (gap + comment)))
    ensures Classify(b0 + Core(k, b1, b2, Spell(v, sp)) + (gap + comment), section) == Value(Lower(k), v)
  {
    hide Strip, Classify, CommentTail, Core, Spell, IsSection;
    var core := Core(k, b1, b2, Spell(v, sp));
    SpellEnds(v, sp);
    CoreEnds(k, b1, b2, Spell(v, sp));
    var gap', comment' := SpelledLine(b0, core, gap, comment);
    var input := b0 + core + (gap + comment);
    assert Strip(input)[0] == k[0];
    SpelledEntry(input, k, b1, b2, v, sp, gap', comment', section);
  }
}
