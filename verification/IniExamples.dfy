/** Files whose content the parser, the printer or the access functions lose. */
module IniExamples {
  import opened CText
  import opened Hash
  import opened Dictionary
  import opened IniLine
  import opened IniLoad
  import opened IniAccess
  import opened IniIndex
  import opened IniDump
  import opened IniEntryLine
  import opened IniBare
  import opened IniRoundTrip
  import opened ConfNumbers
  import opened PoolConfig
  import opened PoolName
  import opened PoolOptions
  import opened PoolParse

  function QuotedLine(v: string): string {
    "k=\"" + v + "\""
  }

  function QuotedFile(v: string): string {
    "[s]\n" + (QuotedLine(v) + "\n")
  }

  function OneEntry(v: string): Store {
    map["s" := None, "s:k" := Some(v)]
  }

  const ENTRY_KEYS: Slots := [Some("s"), Some("s:k")]
  const ENTRY_HASHES: seq<bv32> := [HashOf("s"), HashOf("s:k")]

  function EntryVals(v: string): Slots {
    [None, Some(v)]
  }

  lemma QuotedLoads(v: string)
    requires v != "" && Without(v, '"') && OneLine(v) && |v| < 900
    ensures LoadFile(QuotedFile(v)) == Some(OneEntry(v))
  {
    hide Run, Classify, EntryValue, LTrim, RTrim, Strip;
    var line := QuotedLine(v);
    assert line == "k" + "=" + ("\"" + v + "\"");
    assert line[0] == 'k' && line[|line| - 1] == '"';
    RTrimDropsBlanks(line, "");
    assert line + "" == line;
    StripOfTrimmed(line);
    StripOfTrimmed("k");
    assert Lower("k") == "k";
    ClassifyEntry(line, "s", "k", "\"" + v + "\"");
    LTrimDropsBlanks("", "\"" + v + "\"");
    assert "" + ("\"" + v + "\"") == ['"'] + v + ['"'] + "" == "\"" + v + "\"";
    EntryValueOfQuoted('"', v, "");
    assert "[" + "s" + "]\n" == "[s]\n" && "s" + ":" + "k" == "s:k";
    SectionAndEntry("s", line, "k", v);
  }

  lemma EntryNames()
    ensures IsSectionName("s") && !IsSectionName("s:k") && SectionOf("s:k") == "s" && KeyOf("s:k") == "k"
    ensures PrintableSection("s") && PrintableKey("k")
  {
    IndexOfUnique("s", ':', 1);
    IndexOfUnique("s:k", ':', 1);
    assert Lower("s") == "s" && Lower("k") == "k";
  }

  lemma EntryTable(v: string)
    ensures Table(ENTRY_KEYS, EntryVals(v), ENTRY_HASHES, OneEntry(v))
    ensures Sections(ENTRY_KEYS) != []
  {
    hide HashOf;
    EntryNames();
    var keys := ENTRY_KEYS;
    assert keys[0] == Some("s") && keys[1] == Some("s:k");
    assert keys[1..] == [Some("s:k")] && keys[1..][1..] == [];
    assert OneEntry(v).Keys == {"s", "s:k"};
  }

  lemma EntryPrintable(v: string)
    requires OneLine(v)
    ensures Printable(OneEntry(v)) && Normal(OneEntry(v))
    ensures AllSurvive(OneEntry(v)) <==> Survives("k", v)
  {
    hide IsSectionName, SectionOf, KeyOf, PrintableSection, PrintableKey, Survives;
    EntryNames();
    assert "s:k" in OneEntry(v) && OneEntry(v)["s:k"] == Some(v);
  }

  lemma ShortLine(v: string)
    requires |v| < 900
    ensures |EntryLine("k", v)| < ASCIILINESZ
  {
    var pad := PaddedKey("k");
    SpacesBlank(29);
  }

  /** A quoted value is loaded as it stands between its quotes. Printed and loaded again, the dictionary
      is the same exactly when the value can do without them. */
  lemma QuotedReturnsIff(v: string)
    requires v != "" && Without(v, '"') && OneLine(v) && |v| < 900
    ensures LoadFile(QuotedFile(v)) == Some(OneEntry(v))
    ensures Table(ENTRY_KEYS, EntryVals(v), ENTRY_HASHES, OneEntry(v)) && Normal(OneEntry(v))
    ensures LoadFile(DumpText(ENTRY_KEYS, EntryVals(v), OneEntry(v))) == LoadFile(QuotedFile(v)) <==>
            ReadsBack(v) && !EndsWith(v, '\\')
  {
    hide LoadFile, DumpText, Table, Sections, ReadsBack, Printable, AllSurvive, Normal, QuotedFile, OneEntry;
    QuotedLoads(v);
    EntryTable(v);
    EntryPrintable(v);
    ShortLine(v);
    RoundTrip(ENTRY_KEYS, EntryVals(v), ENTRY_HASHES, OneEntry(v));
  }

  lemma LostValues()
    ensures Without("a;b", '"') && OneLine("a;b") && !ReadsBack("a;b")
    ensures Without("a\\", '"') && OneLine("a\\") && EndsWith("a\\", '\\')
  {
    hide Trimmed, QuotedBy;
    var v, w := "a;b", "a\\";
    assert v[0] == 'a' && v[1] == ';' && v[2] == 'b';
    assert w[0] == 'a' && w[1] == '\\';
  }

  /** Two such losses: a comment mark, and a backslash at the end. */
  lemma QuotedLost()
    ensures LoadFile(DumpText(ENTRY_KEYS, EntryVals("a;b"), OneEntry("a;b"))) != LoadFile(QuotedFile("a;b"))
    ensures LoadFile(DumpText(ENTRY_KEYS, EntryVals("a\\"), OneEntry("a\\"))) != LoadFile(QuotedFile("a\\"))
  {
    hide LoadFile, DumpText, QuotedFile, OneEntry, EntryVals, ReadsBack, OneLine;
    LostValues();
    QuotedReturnsIff("a;b");
    QuotedReturnsIff("a\\");
  }

  lemma PlainPair(k: string, section: string)
    requires PrintableKey(k)
    ensures RTrim(k + "=v") == k + "=v" && Classify(k + "=v", section) == Value(k, "v")
  {
    hide Classify, EntryValue, LTrim, RTrim, Strip;
    var line := k + "=v";
    assert line == k + "=" + "v" && line[0] == k[0] && line[|line| - 1] == 'v';
    RTrimDropsBlanks(line, "");
    assert line + "" == line;
    StripOfTrimmed(line);
    StripOfTrimmed(k);
    ClassifyEntry(line, section, k, "v");
    LTrimDropsBlanks("", "v");
    assert "" + "v" == "v" && "v" + ("" + "") == "v";
    EntryValueOfPlain("v", "", "");
  }

  lemma PlainEntry()
    ensures RTrim("k=v") == "k=v" && Classify("k=v", "") == Value("k", "v")
  {
    hide Classify, RTrim;
    EntryNames();
    PlainPair("k", "");
    assert "k" + "=v" == "k=v";
  }

  lemma UnsectionedKey()
    ensures !IsSectionName(":k") && SectionOf(":k") == "" && "" + ":" + "k" == ":k"
  {
    IndexOfUnique(":k", ':', 0);
  }

  /** The loader itself makes dictionaries that are not normal: an entry before any section. */
  lemma EntryBeforeSection()
    ensures LoadFile("k=v\n" + "[s]\n") == Some(map[":k" := Some("v"), "s" := None])
    ensures !Normal(map[":k" := Some("v"), "s" := None])
  {
    hide Run, Classify, RTrim, SectionOf, IsSectionName;
    var line, head := "k=v", "[s]";
    EntryNames();
    PlainEntry();
    assert head == "[" + "s" + "]";
    var mid := INIT.(store := map[":k" := Some("v")]);
    assert INIT.store[":k" := Some("v")] == mid.store;
    SectionProcess(mid, "s");
    var end := mid.(section := "s", store := map[":k" := Some("v"), "s" := None]);
    assert mid.store["s" := None] == end.store;
    RunLine(INIT, line, head + "\n");
    assert line + "\n" + (head + "\n") == "k=v\n" + "[s]\n" && head + "\n" + "" == head + "\n";
    RunLine(mid, head, "");
    RunEmpty(end);
    UnsectionedKey();
    assert ":k" in end.store;
  }

  function Repeat(c: char, n: nat): string {
    seq(n, _ => c)
  }

  /** An entry under a long section name and a long key is loaded, but no lookup finds it. */
  lemma LongEntryLost(def: Pointer)
    ensures var s, k := Repeat('a', 600), Repeat('b', 600);
            var q := s + ":" + k;
            && LoadFile("[" + s + "]\n" + (k + "=v" + "\n")) == Some(map[s := None, q := Some("v")])
            && Lookup(map[s := None, q := Some("v")], Fold(q), def) == def
  {
    hide LoadFile, Classify, RTrim;
    var s, k := Repeat('a', 600), Repeat('b', 600);
    assert Lower(s) == s && Lower(k) == k;
    PlainPair(k, s);
    SectionAndEntry(s, k + "=v", k, "v");
    assert |Fold(s + ":" + k)| == ASCIILINESZ;
  }

  lemma UserKey()
    ensures PrintableKey("user") && Lower("user") == "user" && KeyName(User) == "user"
  {
    var k := "user";
    assert k[0] == 'u' && k[1] == 's' && k[2] == 'e' && k[3] == 'r';
  }

  lemma NothingUnderCutKey(m: Store, s: string, o: Setting)
    requires |s| == 123 && forall k :: k in m ==> |k| == 123 || |k| == 128
    ensures !ValueOf(m, s, o).Text?
  {
    hide KeyName;
    assert 124 <= |Fold(RealKey(s, o))| <= 127;
  }

  /** A pool whose `user` is in the file and not in its settings, without an error: the section's name
      is too long for the key buffer. */
  lemma UserLost()
    ensures var s := Repeat('a', 123);
            var m := map[s := None, s + ":" + "user" := Some("v")];
            && LoadFile("[" + s + "]\n" + ("user" + "=v" + "\n")) == Some(m)
            && PoolOf(m, s) == (DEFAULTS.(name := Some(s)), true)
  {
    hide LoadFile, Classify, RTrim, ValueOf, Loaded, KeyName, PrintableKey;
    var s := Repeat('a', 123);
    var m := map[s := None, s + ":" + "user" := Some("v")];
    UserKey();
    assert Lower(s) == s;
    PlainPair("user", s);
    SectionAndEntry(s, "user" + "=v", "user", "v");
    forall o
      ensures !ValueOf(m, s, o).Text?
    {
      NothingUnderCutKey(m, s, o);
    }
    NothingRead(m, s, DEFAULTS.(name := Some(s)), 0);
  }

  lemma SpacesAre(n: nat)
    ensures Spaces(n) == Repeat(' ', n)
  {
    SpacesBlank(n);
  }

  lemma PrintedLines(v: string)
    ensures Sections(ENTRY_KEYS) == ["s"]
    ensures EntryLines(ENTRY_KEYS, EntryVals(v), "s") == EntryLine("k", v)
  {
    hide EntryLine;
    var keys, vals := ENTRY_KEYS, EntryVals(v);
    EntryNames();
    assert keys[0] == Some("s") && keys[1..] == [Some("s:k")] && keys[1..][1..] == [];
    assert vals[1..] == [Some(v)] && vals[1..][1..] == [];
    assert !Belongs("s", "s") && Belongs("s:k", "s");
    assert "s:k"[2..] == "k";
    var line := EntryLine("k", v);
    assert EntryLines([], [], "s") == "" && line + "" == line && "" + line == line;
    assert EntryLines(keys[1..], vals[1..], "s") == line;
  }

  lemma PrintedSection(v: string)
    ensures SectionTexts(ENTRY_KEYS, EntryVals(v), OneEntry(v), ["s"]) == SectionHead("s") + EntryLine("k", v) + "\n"
  {
    hide EntryLine, SectionHead, EntryLines;
    PrintedLines(v);
    assert Lower("s") == "s" && Take("s", ASCIILINESZ) == "s";
    assert ["s"][1..] == [];
    var text := SectionHead("s") + EntryLine("k", v) + "\n";
    assert text + "" == text;
  }

  /** A whole printed file. */
  lemma PrintedText(v: string)
    ensures DumpText(ENTRY_KEYS, EntryVals(v), OneEntry(v)) ==
            "\n[s]\n" + ("k" + Repeat(' ', 29) + " = " + v + "\n") + "\n\n"
  {
    hide EntryLine, SectionTexts, BareLines, Repeat, Sections;
    PrintedLines(v);
    PrintedSection(v);
    EntryColumns("k", v);
    SpacesAre(29);
    var head, line := SectionHead("s"), EntryLine("k", v);
    assert head == "\n[s]\n";
    assert head + line + "\n" + "\n" == head + line + "\n\n";
  }

  // A pool file.

  function OptionLine(k: string, v: string): string {
    k + " = " + v
  }

  /** One option line of a section. */
  lemma OptionRead(st: Loader, k: string, v: string)
    requires PrintableKey(k) && ReadsBack(v) && OneLine(v) && v != "" && !EndsWith(v, '\\') && |k| + |v| < 900
    ensures Process(st, RTrim(OptionLine(k, v))) == st.(store := st.store[st.section + ":" + k := Some(v)])
    ensures Fitting(OptionLine(k, v))
  {
    hide Process, EntryValue, Strip, LTrim, RTrim, PrintableKey, ReadsBack;
    var head := (k + " ") + "=";
    assert OptionLine(k, v) == head + (" " + v);
    RTrimBehind(head, " " + v);
    var _ := RTrimSplits(" " + v);
    TailOfValue(v);
    TrimmedWhenReadsBack(v);
    ReadsBackIff(v);
    KeyAndGap(k);
    PairProcess(st, k, " ", RTrim(" " + v));
    LastOfSum(head, RTrim(" " + v));
    OneLineSum(k, v);
  }

  /** A file of three options, the names being those of the shipped example. */
  function PoolFile(): string {
    "[" + "www" + "]" + "\n"
    + (OptionLine("pm", "dynamic") + "\n"
       + (OptionLine("pm.min_spare_servers", "1") + "\n"
          + (OptionLine("pm.max_spare_servers", "3") + "\n" + "")))
  }

  function PoolStore(): Store {
    map["www" := None, "www" + ":" + "pm" := Some("dynamic"),
        "www" + ":" + "pm.min_spare_servers" := Some("1"), "www" + ":" + "pm.max_spare_servers" := Some("3")]
  }

  /** A name of small letters, dots and underscores. */
  lemma NamePrintable(k: string)
    requires k != "" && forall c :: c in k ==> 'a' <= c <= 'z' || c == '.' || c == '_'
    ensures PrintableKey(k)
  {
    forall i | 0 <= i < |k|
      ensures k[i] in k && ToLower(k[i]) == k[i]
    {
    }
    assert Lower(k) == k;
  }

  lemma PoolNames()
    ensures PrintableSection("www") && PrintableKey("pm")
    ensures PrintableKey("pm.min_spare_servers") && PrintableKey("pm.max_spare_servers")
  {
    NamePrintable("pm");
    NamePrintable("pm.min_spare_servers");
    NamePrintable("pm.max_spare_servers");
    assert forall c :: c in "www" ==> c == 'w';
    assert Lower("www") == "www";
  }

  /** A value of small letters and digits. */
  lemma WordReadsBack(v: string)
    requires v != "" && forall c :: c in v ==> 'a' <= c <= 'z' || '0' <= c <= '9'
    ensures ReadsBack(v) && OneLine(v) && !EndsWith(v, '\\')
  {
    assert forall i :: 0 <= i < |v| ==> v[i] in v;
  }

  lemma PoolValues()
    ensures ReadsBack("dynamic") && ReadsBack("1") && ReadsBack("3")
    ensures OneLine("dynamic") && OneLine("1") && OneLine("3")
    ensures !EndsWith("dynamic", '\\') && !EndsWith("1", '\\') && !EndsWith("3", '\\')
  {
    WordReadsBack("dynamic");
    WordReadsBack("1");
    WordReadsBack("3");
  }

  lemma RunOption(st: Loader, k: string, v: string, rest: string)
    requires st.acc == ""
    requires PrintableKey(k) && ReadsBack(v) && OneLine(v) && v != "" && !EndsWith(v, '\\') && |k| + |v| < 900
    ensures Run(st, OptionLine(k, v) + "\n" + rest) ==
            Run(st.(store := st.store[st.section + ":" + k := Some(v)]), rest)
  {
    hide Run, Process, RTrim, OptionLine, PrintableKey, ReadsBack;
    OptionRead(st, k, v);
    CompleteLine(st, OptionLine(k, v), rest);
  }

  lemma RunHead(st: Loader, s: string, rest: string)
    requires st.acc == "" && PrintableSection(s)
    ensures Run(st, "[" + s + "]" + "\n" + rest) == Run(st.(section := s, store := st.store[s := None]), rest)
  {
    hide Run, Process, RTrim;
    SectionProcess(st, s);
    RunLine(st, "[" + s + "]", rest);
  }

  /** The example loads to its four keys. */
  lemma PoolFileLoads()
    ensures LoadFile(PoolFile()) == Some(PoolStore())
  {
    hide Run, OptionLine, PrintableKey, PrintableSection, ReadsBack, OneLine, EndsWith;
    PoolNames();
    PoolValues();
    var r3 := OptionLine("pm.max_spare_servers", "3") + "\n" + "";
    var r2 := OptionLine("pm.min_spare_servers", "1") + "\n" + r3;
    var r1 := OptionLine("pm", "dynamic") + "\n" + r2;
    var st0 := INIT.(section := "www", store := INIT.store["www" := None]);
    var st1 := st0.(store := st0.store["www" + ":" + "pm" := Some("dynamic")]);
    var st2 := st1.(store := st1.store["www" + ":" + "pm.min_spare_servers" := Some("1")]);
    var st3 := st2.(store := st2.store["www" + ":" + "pm.max_spare_servers" := Some("3")]);
    RunHead(INIT, "www", r1);
    RunOption(st0, "pm", "dynamic", r2);
    RunOption(st1, "pm.min_spare_servers", "1", r3);
    RunOption(st2, "pm.max_spare_servers", "3", "");
    RunEmpty(st3);
  }

  lemma LowerLength(s: string)
    ensures |Lower(s)| == |s|
  {
  }

  lemma NotInPoolFile(name: string)
    requires |name| != 2 && |name| != 20
    ensures EntryOf(PoolStore(), "www", name) == Null
  {
    PoolNames();
    assert |"www" + ":" + name| == 4 + |name|;
    assert |"pm"| == 2 && |"pm.min_spare_servers"| == 20 && |"pm.max_spare_servers"| == 20;
    hide Lower;
    assert |Lower("www" + ":" + name)| == 4 + |name| by {
      LowerLength("www" + ":" + name);
    }
  }

  lemma InPoolFile()
    ensures EntryOf(PoolStore(), "www", "pm") == Text("dynamic")
    ensures EntryOf(PoolStore(), "www", "pm.min_spare_servers") == Text("1")
    ensures EntryOf(PoolStore(), "www", "pm.max_spare_servers") == Text("3")
  {
    hide Lower;
    PoolNames();
    var pm, min, max := "pm", "pm.min_spare_servers", "pm.max_spare_servers";
    LowerConcat("www", pm);
    LowerConcat("www", min);
    LowerConcat("www", max);
    assert |pm| == 2 && |min| == 20 && |max| == 20;
    assert ("www" + ":" + min)[8] == min[4] == 'i' && ("www" + ":" + max)[8] == max[4] == 'a';
  }

  lemma SmallNumbers()
    ensures Atoi("1") == 1 && Atoi("3") == 3
  {
    IntegerReadsBack(1);
    IntegerReadsBack(3);
  }

  lemma OptionLengths()
    ensures |"user"| == 4 && |"group"| == 5 && |"listen"| == 6 && |"listen_backlog"| == 14
    ensures |"process_priority"| == 16 && |"process.dumpable"| == 16 && |"pm.max_children"| == 15
    ensures |"pm.start_servers"| == 16 && |"pm.process_idle_timeout"| == 23 && |"pm.max_requests"| == 15
  {
  }

  /** And to this pool. */
  lemma PoolFileParses()
    ensures PoolOf(PoolStore(), "www") ==
            (Config(Some("www"), None, None, None, 511, 64, 0, 2, 0, 0, 1, 3, 10, 0), true)
  {
    hide PoolOf, Atoi, PoolStore, Lower, EntryOf, Settles, Expanded;
    var m := PoolStore();
    OptionLengths();
    InPoolFile();
    SmallNumbers();
    WordsAreLower();
    NotInPoolFile("user");
    NotInPoolFile("group");
    NotInPoolFile("listen");
    NotInPoolFile("listen_backlog");
    NotInPoolFile("process_priority");
    NotInPoolFile("process.dumpable");
    NotInPoolFile("pm.max_children");
    NotInPoolFile("pm.start_servers");
    NotInPoolFile("pm.process_idle_timeout");
    NotInPoolFile("pm.max_requests");
    assert |"www"| == 3;
    SettlesIff(m, "www");
    SettingsByName(m, "www");
    PoolSettings(m, "www");
  }
}
