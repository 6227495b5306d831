/** Printing a dictionary and loading the text again. */
module IniRoundTrip {
  import opened CText
  import opened Sscanf
  import opened Dictionary
  import opened IniLine
  import opened IniLoad
  import opened IniLoader
  import opened IniIndex
  import opened IniDump
  import opened IniEntryLine
  import opened IniPhysical

  /** The key part of "section:key". */
  function KeyOf(q: string): string
    requires !IsSectionName(q)
  {
    q[IndexOf(q, ':') + 1..]
  }

  /** Names that survive a print, and one-line values. */
  ghost predicate Printable(m: Store) {
    && (forall q :: q in m && IsSectionName(q) ==> PrintableSection(q))
    && (forall q :: q in m && !IsSectionName(q) && SectionOf(q) in m ==>
          PrintableKey(KeyOf(q)) && OneLine(ValueOr(m[q], "")))
  }

  /** Every printed entry is a line of its own. */
  ghost predicate AllAlone(m: Store) {
    forall q :: q in m && !IsSectionName(q) && SectionOf(q) in m ==> StandsAlone(KeyOf(q), ValueOr(m[q], ""))
  }

  /** Every printed value survives. */
  ghost predicate AllSurvive(m: Store) {
    forall q :: q in m && !IsSectionName(q) && SectionOf(q) in m ==> Survives(KeyOf(q), ValueOr(m[q], ""))
  }

  /** A value as it is read back, a NULL one printed as empty. */
  function Reread(v: Option<string>): Option<string> {
    Some(ReadBack(ValueOr(v, "")))
  }

  /** The map a reload yields: sections without values, entries of present sections as they are
      read back. */
  ghost function Reloaded(m: Store): Store {
    map q | q in m && (IsSectionName(q) || SectionOf(q) in m) :: if IsSectionName(q) then None else Reread(m[q])
  }

  /** Section entries have NULL values, all others have values and a present section. */
  ghost predicate Normal(m: Store) {
    forall q :: q in m ==> if IsSectionName(q) then m[q] == None else m[q].Some? && SectionOf(q) in m
  }

  /** An entry line that fits and stands alone, whatever its value reads back as. */
  ghost predicate Readable(k: string, v: string) {
    PrintableKey(k) && OneLine(v) && StandsAlone(k, v)
  }

  // Whole sections.

  /** The store after the entry lines of section `s`. */
  function StoreEntries(store: Store, keys: Slots, vals: Slots, s: string): Store
    requires |keys| == |vals|
    decreases |keys|
  {
    if keys == [] then store
    else
      var store' := if keys[0].Some? && Belongs(keys[0].value, s)
                    then store[keys[0].value := Reread(vals[0])] else store;
      StoreEntries(store', keys[1..], vals[1..], s)
  }

  /** The store after the texts of all the named sections. */
  function StoreSections(store: Store, keys: Slots, vals: Slots, names: seq<string>): Store
    requires |keys| == |vals|
    decreases |names|
  {
    if names == [] then store
    else StoreSections(StoreEntries(store[names[0] := None], keys, vals, names[0]), keys, vals, names[1..])
  }

  lemma RunEntry(st: Loader, k: string, v: string, rest: string)
    requires st.acc == "" && Readable(k, v)
    ensures Run(st, EntryText(k, v) + "\n" + rest) ==
            Run(st.(store := st.store[st.section + ":" + k := Some(ReadBack(v))]), rest)
  {
    hide Run, Process, RTrim, ReadBack;
    EntryTextPlain(k, v);
    EntryProcess(st, k, v);
    RunLine(st, EntryText(k, v), rest);
  }

  lemma {:induction false} RunEntries(st: Loader, keys: Slots, vals: Slots, s: string, rest: string)
    requires |keys| == |vals| && st.acc == "" && st.section == s
    requires forall i :: 0 <= i < |keys| && keys[i].Some? && Belongs(keys[i].value, s) ==>
                         Readable(keys[i].value[|s| + 1..], ValueOr(vals[i], ""))
    ensures Run(st, EntryLines(keys, vals, s) + rest) == Run(st.(store := StoreEntries(st.store, keys, vals, s)), rest)
    decreases |keys|
  {
    hide Run, Readable, EntryText, Process, ReadBack;
    if keys == [] {
      assert EntryLines(keys, vals, s) + rest == rest;
    } else {
      var more := EntryLines(keys[1..], vals[1..], s);
      if keys[0].Some? && Belongs(keys[0].value, s) {
        var k, v := keys[0].value[|s| + 1..], ValueOr(vals[0], "");
        assert EntryLines(keys, vals, s) + rest == EntryText(k, v) + "\n" + (more + rest);
        RunEntry(st, k, v, more + rest);
        assert s + ":" + k == keys[0].value;
        RunEntries(st.(store := st.store[keys[0].value := Some(ReadBack(v))]), keys[1..], vals[1..], s, rest);
      } else {
        assert EntryLines(keys, vals, s) + rest == more + rest;
        RunEntries(st, keys[1..], vals[1..], s, rest);
      }
    }
  }

  /** The four printed pieces of one section. */
  lemma RunSection(st: Loader, keys: Slots, vals: Slots, s: string, rest: string)
    requires |keys| == |vals| && st.acc == "" && PrintableSection(s)
    requires forall i :: 0 <= i < |keys| && keys[i].Some? && Belongs(keys[i].value, s) ==>
                         Readable(keys[i].value[|s| + 1..], ValueOr(vals[i], ""))
    ensures Run(st, SectionHead(s) + EntryLines(keys, vals, s) + "\n" + rest) ==
            Run(st.(section := s, store := StoreEntries(st.store[s := None], keys, vals, s)), rest)
  {
    hide Run, Readable, Process, EntryLines, StoreEntries;
    var lines := EntryLines(keys, vals, s);
    var line := "[" + s + "]";
    var r1 := lines + ("\n" + rest);
    assert SectionHead(s) + lines + "\n" + rest == "\n" + (line + "\n" + r1);
    RunBlank(st, line + "\n" + r1);
    SectionProcess(st, s);
    RunLine(st, line, r1);
    var st1 := st.(section := s, store := st.store[s := None]);
    RunEntries(st1, keys, vals, s, "\n" + rest);
    RunBlank(st1.(store := StoreEntries(st1.store, keys, vals, s)), rest);
  }

  /** What the loader makes of the text printed for one section. */
  function AfterSection(st: Loader, keys: Slots, vals: Slots, s: string): Loader
    requires |keys| == |vals|
  {
    st.(section := s, store := StoreEntries(st.store[s := None], keys, vals, s))
  }

  lemma EntriesReadable(keys: Slots, vals: Slots, m: Store, s: string)
    requires Represents(keys, vals, m) && Printable(m) && AllAlone(m) && s in m && IsSectionName(s)
    ensures forall i :: 0 <= i < |keys| && keys[i].Some? && Belongs(keys[i].value, s) ==>
                        Readable(keys[i].value[|s| + 1..], ValueOr(vals[i], ""))
  {
    hide PrintableSection, PrintableKey, OneLine, StandsAlone;
    forall i | 0 <= i < |keys| && keys[i].Some? && Belongs(keys[i].value, s)
      ensures Readable(keys[i].value[|s| + 1..], ValueOr(vals[i], ""))
    {
      BelongsIff(keys[i].value, s);
    }
  }

  lemma RunSectionText(st: Loader, keys: Slots, vals: Slots, m: Store, s: string, rest: string)
    requires Represents(keys, vals, m) && Printable(m) && AllAlone(m) && st.acc == ""
    requires s in m && IsSectionName(s)
    ensures Run(st, SectionText(keys, vals, m, s) + rest) == Run(AfterSection(st, keys, vals, s), rest)
  {
    hide Run, EntryLines, StoreEntries, SectionHead, Readable;
    assert PrintableSection(s);
    assert Take(s, ASCIILINESZ) == s;
    EntriesReadable(keys, vals, m, s);
    RunSection(st, keys, vals, s, rest);
  }

  lemma {:induction false} RunSections(st: Loader, keys: Slots, vals: Slots, m: Store, names: seq<string>, rest: string)
      returns (end: Loader)
    requires Represents(keys, vals, m) && Printable(m) && AllAlone(m) && st.acc == ""
    requires forall s :: s in names ==> s in m && IsSectionName(s)
    ensures end.acc == "" && end.errs == st.errs && end.store == StoreSections(st.store, keys, vals, names)
    ensures Run(st, SectionTexts(keys, vals, m, names) + rest) == Run(end, rest)
    decreases |names|
  {
    hide Run, StoreEntries, SectionText, Printable, AllAlone, IsSectionName;
    if names == [] {
      end := st;
      assert SectionTexts(keys, vals, m, names) + rest == rest;
    } else {
      var s := names[0];
      var more := SectionTexts(keys, vals, m, names[1..]);
      assert SectionTexts(keys, vals, m, names) + rest == SectionText(keys, vals, m, s) + (more + rest);
      RunSectionText(st, keys, vals, m, s, more + rest);
      end := RunSections(AfterSection(st, keys, vals, s), keys, vals, m, names[1..], rest);
    }
  }

  // The stored map.

  ghost function SectionPart(m: Store, s: string): Store {
    map q | q in m && Belongs(q, s) :: Reread(m[q])
  }

  ghost function SeenPart(m: Store, keys: Slots, s: string): Store {
    map q | q in m && Some(q) in keys && Belongs(q, s) :: Reread(m[q])
  }

  lemma SeenPartCons(store: Store, keys: Slots, m: Store, s: string)
    requires keys != []
    requires keys[0].Some? ==> keys[0].value in m
    ensures var store' := if keys[0].Some? && Belongs(keys[0].value, s)
                          then store[keys[0].value := Reread(m[keys[0].value])] else store;
            store' + SeenPart(m, keys[1..], s) == store + SeenPart(m, keys, s)
  {
    hide Belongs, Reread;
    assert keys == [keys[0]] + keys[1..];
    var whole, tail := SeenPart(m, keys, s), SeenPart(m, keys[1..], s);
    if keys[0].Some? && Belongs(keys[0].value, s) {
      assert whole.Keys == tail.Keys + {keys[0].value};
    } else {
      assert whole == tail;
    }
  }

  lemma {:induction false} StoreEntriesIs(store: Store, keys: Slots, vals: Slots, m: Store, s: string)
    requires |keys| == |vals|
    requires forall i :: 0 <= i < |keys| && keys[i].Some? ==> keys[i].value in m && m[keys[i].value] == vals[i]
    ensures StoreEntries(store, keys, vals, s) == store + SeenPart(m, keys, s)
    decreases |keys|
  {
    hide Belongs, Reread;
    if keys == [] {
      assert store + SeenPart(m, keys, s) == store;
    } else {
      var store' := if keys[0].Some? && Belongs(keys[0].value, s)
                    then store[keys[0].value := Reread(vals[0])] else store;
      StoreEntriesIs(store', keys[1..], vals[1..], m, s);
      SeenPartCons(store, keys, m, s);
    }
  }

  /** The part of `m` the named sections print, as it is read back. */
  ghost function NamedPart(m: Store, names: seq<string>): Store {
    map q | q in m && (if IsSectionName(q) then q in names else SectionOf(q) in names) ::
      if IsSectionName(q) then None else Reread(m[q])
  }

  ghost predicate SameAt(l: Store, r: Store, q: string) {
    (q in l <==> q in r) && (q in l ==> l[q] == r[q])
  }

  lemma SameMaps(l: Store, r: Store)
    requires forall q :: SameAt(l, r, q)
    ensures l == r
  {
    assert forall q :: SameAt(l, r, q) ==> (q in l <==> q in r);
  }

  lemma NamedPartAt(store: Store, m: Store, names: seq<string>, q: string)
    requires names != [] && names[0] in m && IsSectionName(names[0])
    ensures SameAt(store[names[0] := None] + SectionPart(m, names[0]) + NamedPart(m, names[1..]),
                   store + NamedPart(m, names), q)
  {
    hide IsSectionName, SectionOf, Belongs, Reread;
    BelongsIff(q, names[0]);
    assert q in names <==> q == names[0] || q in names[1..];
    assert SectionOf(q) in names <==> SectionOf(q) == names[0] || SectionOf(q) in names[1..];
  }

  lemma NamedPartCons(store: Store, m: Store, names: seq<string>)
    requires names != [] && names[0] in m && IsSectionName(names[0])
    ensures store[names[0] := None] + SectionPart(m, names[0]) + NamedPart(m, names[1..]) == store + NamedPart(m, names)
  {
    hide IsSectionName, SectionPart, NamedPart, SameAt;
    var l := store[names[0] := None] + SectionPart(m, names[0]) + NamedPart(m, names[1..]);
    var r := store + NamedPart(m, names);
    forall q
      ensures SameAt(l, r, q)
    {
      NamedPartAt(store, m, names, q);
    }
    SameMaps(l, r);
  }

  lemma SectionStored(store: Store, keys: Slots, vals: Slots, m: Store, s: string)
    requires Represents(keys, vals, m)
    ensures StoreEntries(store, keys, vals, s) == store + SectionPart(m, s)
  {
    hide StoreEntries, Belongs, Reread;
    StoreEntriesIs(store, keys, vals, m, s);
    assert SeenPart(m, keys, s) == SectionPart(m, s);
  }

  lemma {:induction false} StoreSectionsIs(store: Store, keys: Slots, vals: Slots, m: Store, names: seq<string>)
    requires Represents(keys, vals, m)
    requires forall s :: s in names ==> s in m && IsSectionName(s)
    ensures StoreSections(store, keys, vals, names) == store + NamedPart(m, names)
    decreases |names|
  {
    hide StoreEntries, SeenPart, SectionPart, IsSectionName, Represents;
    if names == [] {
      assert store + NamedPart(m, names) == store;
    } else {
      var s := names[0];
      assert s in names;
      SectionStored(store[s := None], keys, vals, m, s);
      StoreSectionsIs(store[s := None] + SectionPart(m, s), keys, vals, m, names[1..]);
      NamedPartCons(store, m, names);
    }
  }

  lemma SectionOfIsName()
    ensures forall q :: IsSectionName(SectionOf(q))
  {
    forall q
      ensures IsSectionName(SectionOf(q))
    {
      var s := SectionOf(q);
      assert forall j :: 0 <= j < |s| ==> s[j] != ':';
      IndexOfUnique(s, ':', |s|);
    }
  }

  lemma NamedIsReloaded(m: Store, names: seq<string>)
    requires forall s :: s in names <==> s in m && IsSectionName(s)
    ensures map[] + NamedPart(m, names) == Reloaded(m)
  {
    hide IsSectionName, SectionOf, Reread;
    SectionOfIsName();
  }

  /** Loading what was printed gives the normal form of the dictionary. */
  lemma DumpThenLoad(keys: Slots, vals: Slots, m: Store)
    requires Represents(keys, vals, m) && Printable(m) && AllAlone(m) && Sections(keys) != []
    ensures LoadFile(DumpText(keys, vals, m)) == Some(Reloaded(m))
  {
    hide Run, Sections;
    var names := Sections(keys);
    SectionsAreTheColonFreeKeys(keys, vals, m);
    var end := RunSections(INIT, keys, vals, m, names, "\n");
    assert "\n" == "\n" + "";
    RunBlank(end, "");
    RunEmpty(end);
    StoreSectionsIs(map[], keys, vals, m, names);
    NamedIsReloaded(m, names);
  }

  // Whatever comes back unchanged survived line by line.

  /** The entry lines of section `s`, each without its newline. */
  function EntryTexts(keys: Slots, vals: Slots, s: string): seq<string>
    requires |keys| == |vals|
  {
    if keys == [] then []
    else
      (if keys[0].Some? && Belongs(keys[0].value, s)
       then [EntryText(keys[0].value[|s| + 1..], ValueOr(vals[0], ""))] else [])
      + EntryTexts(keys[1..], vals[1..], s)
  }

  function HeadLine(s: string): string {
    "[" + s + "]"
  }

  /** The printed file, each line without its newline. */
  function FileTexts(keys: Slots, vals: Slots, names: seq<string>): seq<string>
    requires |keys| == |vals|
  {
    if names == [] then [""]
    else
      [""] + ([HeadLine(names[0])] + (EntryTexts(keys, vals, names[0]) + ([""] + FileTexts(keys, vals, names[1..]))))
  }

  /** Every entry of section `s` has a printable key and a one-line value, and is in the final map. */
  ghost predicate Expected(keys: Slots, vals: Slots, s: string, end: Store)
    requires |keys| == |vals|
  {
    forall i :: 0 <= i < |keys| && keys[i].Some? && Belongs(keys[i].value, s) ==>
      && PrintableKey(keys[i].value[|s| + 1..]) && OneLine(ValueOr(vals[i], ""))
      && keys[i].value in end && end[keys[i].value] == vals[i]
  }

  ghost predicate EntriesSurvive(keys: Slots, vals: Slots, s: string)
    requires |keys| == |vals|
  {
    forall i :: 0 <= i < |keys| && keys[i].Some? && Belongs(keys[i].value, s) ==>
      Survives(keys[i].value[|s| + 1..], ValueOr(vals[i], ""))
  }

  lemma {:induction false} LTrimFront(t: string)
    requires t != ""
    ensures |LTrim(t[..|t| - 1])| <= |LTrim(t)|
    ensures LTrim(t) != "" ==> |LTrim(t[..|t| - 1])| < |LTrim(t)|
  {
    LTrimIsSuffix(t[..|t| - 1]);
    if !IsSpace(t[0]) || |t| == 1 {
    } else {
      assert t[..|t| - 1][1..] == t[1..][..|t| - 2];
      LTrimFront(t[1..]);
    }
  }

  lemma {:induction false} LTrimOfRTrim(t: string)
    ensures |LTrim(RTrim(t))| <= |LTrim(t)|
  {
    if t == "" || !IsSpace(t[|t| - 1]) {
    } else {
      LTrimFront(t);
      LTrimOfRTrim(t[..|t| - 1]);
    }
  }

  lemma JudgeText(text: string)
    requires text != ""
    ensures Judge(text + "\n", false) ==
            if EndsWith(RTrim(text), '\\') then Pending(RTrim(text)[..|RTrim(text)| - 1]) else Complete(RTrim(text))
  {
    hide RTrim;
    var b := RTrimSplits(text);
    assert text + "\n" == RTrim(text) + (b + "\n");
    RTrimDropsBlanks(RTrim(text), b + "\n");
  }

  /** A pending entry whose value has already lost its end is stored shorter, or takes a line with it. */
  lemma {:induction false} PendingLoses(st: Loader, k: string, gap: string, tail: string, v: string,
                                       texts: seq<string>, end: Loader)
    requires Tight(st, texts, end) && end.acc == ""
    requires PrintableKey(k) && Blank(gap) && Without(gap, '=')
    requires st.acc == (k + gap) + "=" + tail && |LTrim(tail)| < |v|
    ensures var q := st.section + ":" + k; q in end.store && end.store[q] != Some(v)
    decreases |texts|
  {
    hide Process, RTrim, LTrim, PrintableKey, Weight, EntryValue;
    if texts == [] {
      assert false;
    } else {
      TightStep(st, texts, end);
      var head, text := (k + gap) + "=", RTrim(st.acc);
      RTrimBehind(head, tail);
      LTrimOfRTrim(tail);
      JudgeText(st.acc);
      assert st.acc + "" + "\n" == st.acc + "\n";
      LastOfSum(head, RTrim(tail));
      if EndsWith(text, '\\') {
        var short := RTrim(tail)[..|RTrim(tail)| - 1];
        assert text[..|text| - 1] == head + short;
        LTrimFront(RTrim(tail));
        PendingLoses(st.(acc := head + short), k, gap, short, v, texts[1..], end);
      } else {
        var _ := RTrimSplits(tail);
        PairProcess(st.(acc := ""), k, gap, RTrim(tail));
        EntryValueShrinks(LTrim(RTrim(tail)));
        TightKeeps(LineStep(st, texts[0]).value, texts[1..], end, st.section + ":" + k);
      }
    }
  }

  lemma KeyIsOneLine(k: string)
    requires PrintableKey(k)
    ensures OneLine(k)
  {
  }

  lemma EmptySurvives()
    ensures ReadsBack("") && !EndsWith(Strip(""), '\\')
  {
    StripOfTrimmed("");
  }

  /** A line of an entry: it fits, and when the entry comes out as it was, its value survived. */
  lemma TightEntry(st: Loader, k: string, v: string, texts: seq<string>, end: Loader)
    requires Tight(st, [EntryText(k, v)] + texts, end) && end.acc == "" && st.acc == ""
    requires PrintableKey(k) && OneLine(v)
    ensures v == "" ==> Survives(k, v)
    ensures var q := st.section + ":" + k; q in end.store && end.store[q] == Some(v) ==> Survives(k, v)
    ensures Survives(k, v) ==> Tight(st.(store := st.store[st.section + ":" + k := Some(v)]), texts, end)
  {
    hide Process, RTrim, LTrim, Strip, PrintableKey, Weight, EntryValue, EntryText, ReadBack, ReadsBack, Tight;
    var text := EntryText(k, v);
    var all := [text] + texts;
    assert all[0] == text && all[1..] == texts;
    KeyIsOneLine(k);
    EntryTextPlain(k, v);
    EmptySurvives();
    TightStep(st, all, end);
    assert st.acc + text + "\n" == text + "\n";
    JudgeText(text);
    EntryProcess(st, k, v);
    ReadsBackIff(v);
    SurvivesIff(k, v);
    var q := st.section + ":" + k;
    if EndsWith(RTrim(text), '\\') {
      var gap := StrippedEntry(k, v);
      var tail := RTrim(" " + v);
      TailOfValue(v);
      StripWhole(v);
      LastOfSum((k + gap) + "=", tail);
      var short := tail[..|tail| - 1];
      LTrimFront(tail);
      assert RTrim(text)[..|RTrim(text)| - 1] == (k + gap) + "=" + short;
      PendingLoses(st.(acc := (k + gap) + "=" + short), k, gap, short, v, texts, end);
    } else {
      assert st.(acc := "") == st;
      TightKeeps(LineStep(st, text).value, texts, end, q);
    }
  }

  lemma ExpectedRest(keys: Slots, vals: Slots, s: string, end: Store)
    requires |keys| == |vals| && keys != [] && Expected(keys, vals, s, end)
    ensures Expected(keys[1..], vals[1..], s, end)
  {
    hide PrintableKey, OneLine, ValueOr, Belongs;
    forall i | 0 <= i < |keys| - 1
      ensures keys[1..][i] == keys[i + 1] && vals[1..][i] == vals[i + 1]
    {
    }
  }

  lemma SurviveCons(keys: Slots, vals: Slots, s: string)
    requires |keys| == |vals| && keys != [] && EntriesSurvive(keys[1..], vals[1..], s)
    requires keys[0].Some? && Belongs(keys[0].value, s) ==> Survives(keys[0].value[|s| + 1..], ValueOr(vals[0], ""))
    ensures EntriesSurvive(keys, vals, s)
  {
    hide Survives, ValueOr, Belongs;
    forall i | 0 < i < |keys|
      ensures keys[i] == keys[1..][i - 1] && vals[i] == vals[1..][i - 1]
    {
    }
  }

  lemma {:induction false} TightEntries(st: Loader, keys: Slots, vals: Slots, s: string, rest: seq<string>, end: Loader)
      returns (mid: Loader)
    requires |keys| == |vals| && st.acc == "" && st.section == s
    requires Tight(st, EntryTexts(keys, vals, s) + rest, end) && end.acc == ""
    requires Expected(keys, vals, s, end.store)
    ensures EntriesSurvive(keys, vals, s)
    ensures mid.acc == "" && Tight(mid, rest, end)
    decreases |keys|
  {
    hide Tight, Survives, PrintableKey, OneLine, EntryText;
    if keys == [] {
      assert EntryTexts(keys, vals, s) + rest == rest;
      mid := st;
    } else {
      var more := EntryTexts(keys[1..], vals[1..], s) + rest;
      ExpectedRest(keys, vals, s, end.store);
      if keys[0].Some? && Belongs(keys[0].value, s) {
        var k, v := keys[0].value[|s| + 1..], ValueOr(vals[0], "");
        assert EntryTexts(keys, vals, s) + rest == [EntryText(k, v)] + more;
        assert s + ":" + k == keys[0].value;
        TightEntry(st, k, v, more, end);
        mid := TightEntries(st.(store := st.store[keys[0].value := Some(v)]), keys[1..], vals[1..], s, rest, end);
      } else {
        assert EntryTexts(keys, vals, s) + rest == more;
        mid := TightEntries(st, keys[1..], vals[1..], s, rest, end);
      }
      SurviveCons(keys, vals, s);
    }
  }

  /** An empty line with nothing pending. */
  lemma TightBlank(st: Loader, texts: seq<string>, end: Loader)
    requires Tight(st, [""] + texts, end) && st.acc == ""
    ensures Tight(st, texts, end)
  {
    hide Tight;
    var all := [""] + texts;
    assert all[1..] == texts;
    TightStep(st, all, end);
    assert st.acc + "" + "\n" == "\n";
  }

  lemma TightHead(st: Loader, s: string, texts: seq<string>, end: Loader)
    requires Tight(st, [HeadLine(s)] + texts, end) && st.acc == "" && PrintableSection(s)
    ensures Tight(st.(section := s, store := st.store[s := None]), texts, end)
  {
    hide Tight, Process, RTrim;
    var line := HeadLine(s);
    var all := [line] + texts;
    assert all[0] == line && all[1..] == texts;
    TightStep(st, all, end);
    SectionProcess(st, s);
    assert st.acc + line + "\n" == line + "\n";
    JudgeText(line);
    assert st.(acc := "") == st;
  }

  lemma TightSection(st: Loader, keys: Slots, vals: Slots, s: string, more: seq<string>, end: Loader)
      returns (mid: Loader)
    requires |keys| == |vals| && st.acc == "" && end.acc == ""
    requires PrintableSection(s) && Expected(keys, vals, s, end.store)
    requires Tight(st, [""] + ([HeadLine(s)] + (EntryTexts(keys, vals, s) + ([""] + more))), end)
    ensures EntriesSurvive(keys, vals, s)
    ensures mid.acc == "" && Tight(mid, more, end)
  {
    hide Tight, PrintableSection, Expected, EntriesSurvive, EntryTexts, HeadLine;
    var behind := EntryTexts(keys, vals, s) + ([""] + more);
    TightBlank(st, [HeadLine(s)] + behind, end);
    TightHead(st, s, behind, end);
    mid := TightEntries(st.(section := s, store := st.store[s := None]), keys, vals, s, [""] + more, end);
    TightBlank(mid, more, end);
  }

  lemma {:induction false} TightSections(st: Loader, keys: Slots, vals: Slots, names: seq<string>, end: Loader)
    requires |keys| == |vals| && st.acc == "" && end.acc == ""
    requires forall s :: s in names ==> PrintableSection(s) && Expected(keys, vals, s, end.store)
    requires Tight(st, FileTexts(keys, vals, names), end)
    ensures forall s :: s in names ==> EntriesSurvive(keys, vals, s)
    decreases |names|
  {
    hide Tight, PrintableSection, Expected, EntriesSurvive, EntryTexts, HeadLine;
    if names == [] {
    } else {
      var s := names[0];
      assert s in names;
      var mid := TightSection(st, keys, vals, s, FileTexts(keys, vals, names[1..]), end);
      TightSections(mid, keys, vals, names[1..], end);
    }
  }

  // The printed file as lines, and how many there are.

  lemma EntryTextFilled(k: string, v: string)
    ensures EntryText(k, v) != ""
  {
  }

  lemma {:induction false} EntryLinesAre(keys: Slots, vals: Slots, s: string)
    requires |keys| == |vals|
    ensures Lines(EntryTexts(keys, vals, s)) == EntryLines(keys, vals, s)
    ensures Filled(EntryTexts(keys, vals, s)) == |KeysIn(keys, s)|
  {
    hide EntryText;
    if keys == [] {
    } else {
      EntryLinesAre(keys[1..], vals[1..], s);
      var more := EntryTexts(keys[1..], vals[1..], s);
      if keys[0].Some? && Belongs(keys[0].value, s) {
        var text := EntryText(keys[0].value[|s| + 1..], ValueOr(vals[0], ""));
        EntryTextFilled(keys[0].value[|s| + 1..], ValueOr(vals[0], ""));
        assert EntryTexts(keys, vals, s) == [text] + more && ([text] + more)[1..] == more;
      } else {
        assert EntryTexts(keys, vals, s) == more;
      }
    }
  }

  lemma LinesCons(text: string, texts: seq<string>)
    ensures Lines([text] + texts) == text + "\n" + Lines(texts)
    ensures Filled([text] + texts) == (if text == "" then 0 else 1) + Filled(texts)
  {
    assert ([text] + texts)[1..] == texts;
  }

  /** One section in front of the rest of the file. */
  lemma SectionLinesAre(keys: Slots, vals: Slots, s: string, more: seq<string>)
    requires |keys| == |vals|
    ensures var texts := [""] + ([HeadLine(s)] + (EntryTexts(keys, vals, s) + ([""] + more)));
            && Lines(texts) == SectionHead(s) + EntryLines(keys, vals, s) + "\n" + Lines(more)
            && Filled(texts) == 1 + |KeysIn(keys, s)| + Filled(more)
  {
    hide EntryTexts, EntryLines, Lines, Filled;
    var body, lines := EntryTexts(keys, vals, s), EntryLines(keys, vals, s);
    EntryLinesAre(keys, vals, s);
    LinesCons("", more);
    LinesAppend(body, [""] + more);
    FilledAppend(body, [""] + more);
    LinesCons(HeadLine(s), body + ([""] + more));
    LinesCons("", [HeadLine(s)] + (body + ([""] + more)));
    assert "" + "\n" + (HeadLine(s) + "\n" + (lines + ("" + "\n" + Lines(more)))) ==
           SectionHead(s) + lines + "\n" + Lines(more);
  }

  lemma OneEmptyLine()
    ensures Lines([""]) == "\n" && Filled([""]) == 0
  {
    assert [""][1..] == [];
  }

  lemma {:induction false} FileLinesAre(keys: Slots, vals: Slots, m: Store, names: seq<string>)
    requires |keys| == |vals|
    requires forall s :: s in names ==> s in m && PrintableSection(s)
    ensures Lines(FileTexts(keys, vals, names)) == SectionTexts(keys, vals, m, names) + "\n"
    ensures Filled(FileTexts(keys, vals, names)) == |names| + KeyTotal(keys, names)
  {
    hide EntryTexts, EntryLines, SectionHead, HeadLine, Lines, Filled, KeysIn;
    if names == [] {
      OneEmptyLine();
    } else {
      var s := names[0];
      assert s in names;
      assert Take(s, ASCIILINESZ) == s;
      SectionLinesAre(keys, vals, s, FileTexts(keys, vals, names[1..]));
      FileLinesAre(keys, vals, m, names[1..]);
    }
  }

  lemma {:induction false} EntryTextsPhysical(keys: Slots, vals: Slots, s: string, end: Store)
    requires |keys| == |vals| && Expected(keys, vals, s, end)
    ensures forall i :: 0 <= i < |EntryTexts(keys, vals, s)| ==> Physical(EntryTexts(keys, vals, s)[i])
  {
    hide EntryText, PrintableKey;
    if keys == [] {
    } else {
      ExpectedRest(keys, vals, s, end);
      EntryTextsPhysical(keys[1..], vals[1..], s, end);
      if keys[0].Some? && Belongs(keys[0].value, s) {
        KeyIsOneLine(keys[0].value[|s| + 1..]);
        EntryTextPlain(keys[0].value[|s| + 1..], ValueOr(vals[0], ""));
      }
    }
  }

  lemma {:induction false} FileTextsPhysical(keys: Slots, vals: Slots, names: seq<string>, end: Store)
    requires |keys| == |vals|
    requires forall s :: s in names ==> PrintableSection(s) && Expected(keys, vals, s, end)
    ensures forall i :: 0 <= i < |FileTexts(keys, vals, names)| ==> Physical(FileTexts(keys, vals, names)[i])
  {
    hide Expected, EntryTexts;
    if names == [] {
    } else {
      EntryTextsPhysical(keys, vals, names[0], end);
      FileTextsPhysical(keys, vals, names[1..], end);
    }
  }

  lemma ExpectedAll(keys: Slots, vals: Slots, m: Store, s: string)
    requires Represents(keys, vals, m) && Printable(m) && s in m && IsSectionName(s)
    ensures PrintableSection(s) && Expected(keys, vals, s, m)
  {
    hide PrintableSection, PrintableKey, OneLine;
    forall i | 0 <= i < |keys| && keys[i].Some? && Belongs(keys[i].value, s)
      ensures PrintableKey(keys[i].value[|s| + 1..]) && OneLine(ValueOr(vals[i], ""))
    {
      BelongsIff(keys[i].value, s);
    }
  }

  lemma AllSurviveFrom(keys: Slots, vals: Slots, m: Store)
    requires Represents(keys, vals, m)
    requires forall s :: s in m && IsSectionName(s) ==> EntriesSurvive(keys, vals, s)
    ensures AllSurvive(m)
  {
    hide Survives, IsSectionName;
    SectionOfIsName();
    forall q | q in m && !IsSectionName(q) && SectionOf(q) in m
      ensures Survives(KeyOf(q), ValueOr(m[q], ""))
    {
      BelongsIff(q, SectionOf(q));
      var i :| 0 <= i < |keys| && keys[i] == Some(q);
      assert EntriesSurvive(keys, vals, SectionOf(q));
    }
  }

  lemma WeightOfStores(end: Loader)
    ensures Weight(INIT) == 0 && |end.store| <= Weight(end) && (Weight(end) <= |end.store| ==> end.acc == "")
  {
  }

  lemma PrintedRun(keys: Slots, vals: Slots, m: Store, names: seq<string>) returns (end: Loader)
    requires |keys| == |vals| && names == Sections(keys) && names != []
    requires forall s :: s in names ==> s in m && PrintableSection(s) && Expected(keys, vals, s, m)
    requires LoadFile(DumpText(keys, vals, m)) == Some(m)
    ensures After(INIT, FileTexts(keys, vals, names)) == Some(end) && end.store == m
    ensures Filled(FileTexts(keys, vals, names)) == |names| + KeyTotal(keys, names)
  {
    hide Run, Sections, Expected, After, FileTexts, PrintableSection;
    FileLinesAre(keys, vals, m, names);
    FileTextsPhysical(keys, vals, names, m);
    AfterRuns(INIT, FileTexts(keys, vals, names));
    end := After(INIT, FileTexts(keys, vals, names)).value;
  }

  /** A dictionary that comes back unchanged has as many entries as the file has lines, so no line was
      lost or overwritten, and each brought its own entry. */
  lemma UnchangedSurvives(keys: Slots, vals: Slots, hashes: seq<bv32>, m: Store)
    requires Table(keys, vals, hashes, m) && Printable(m) && Sections(keys) != []
    requires LoadFile(DumpText(keys, vals, m)) == Some(m)
    ensures AllSurvive(m)
  {
    assert |keys| == |vals|;
    hide Run, Sections, Expected, EntriesSurvive, Printable, AllSurvive, Represents, Cached, CountUsed, After, Weight;
    var names := Sections(keys);
    SectionsAreTheColonFreeKeys(keys, vals, m);
    forall s | s in names
      ensures PrintableSection(s) && Expected(keys, vals, s, m)
    {
      ExpectedAll(keys, vals, m, s);
    }
    var texts := FileTexts(keys, vals, names);
    var end := PrintedRun(keys, vals, m, names);
    CountAtMost(keys, names);
    Growth(INIT, texts, end);
    WeightOfStores(end);
    TightSections(INIT, keys, vals, names, end);
    AllSurviveFrom(keys, vals, m);
  }

  /** A reload changes nothing exactly when every value reads back and the form is normal. */
  lemma NormalReloads(m: Store)
    ensures Reloaded(m) == m <==>
            Normal(m) && forall q :: q in m && !IsSectionName(q) && SectionOf(q) in m ==> ReadsBack(ValueOr(m[q], ""))
  {
    hide IsSectionName, SectionOf, ReadBack, ReadsBack;
    forall v
      ensures ReadBack(v) == v <==> ReadsBack(v)
    {
      ReadsBackIff(v);
    }
    if Reloaded(m) == m {
      forall q | q in m
        ensures if IsSectionName(q) then m[q] == None
                else m[q].Some? && SectionOf(q) in m && ReadsBack(ValueOr(m[q], ""))
      {
        assert q in Reloaded(m) && Reloaded(m)[q] == m[q];
      }
    }
  }

  lemma SurvivorsStandAlone(m: Store)
    ensures AllSurvive(m) <==>
            AllAlone(m) && forall q :: q in m && !IsSectionName(q) && SectionOf(q) in m ==> ReadsBack(ValueOr(m[q], ""))
  {
    hide IsSectionName, SectionOf, Survives, StandsAlone, ReadBack, ReadsBack, KeyOf;
    forall k, v
      ensures Survives(k, v) <==> StandsAlone(k, v) && ReadsBack(v)
    {
      SurvivesIff(k, v);
      ReadsBackIff(v);
    }
  }

  /** The round trip: of the dictionaries with a section, printable names and one-line values, exactly
      those are read back unchanged that are normal and of which every printed value survives. */
  lemma RoundTrip(keys: Slots, vals: Slots, hashes: seq<bv32>, m: Store)
    requires Table(keys, vals, hashes, m) && Printable(m) && Sections(keys) != []
    ensures LoadFile(DumpText(keys, vals, m)) == Some(m) <==> Normal(m) && AllSurvive(m)
  {
    assert |keys| == |vals| && Represents(keys, vals, m);
    hide LoadFile, DumpText, Reloaded, Normal, Printable, AllSurvive, AllAlone, Table, Represents, Sections;
    hide IsSectionName, SectionOf, ReadsBack;
    NormalReloads(m);
    SurvivorsStandAlone(m);
    if AllAlone(m) {
      DumpThenLoad(keys, vals, m);
    }
    if LoadFile(DumpText(keys, vals, m)) == Some(m) {
      UnchangedSurvives(keys, vals, hashes, m);
    }
  }

  /** The same through the running printer and loader. */
  method SaveAndLoad(d: Dict) returns (e: Dict?)
    requires d.Valid() && Printable(d.contents) && Sections(d.key[..]) != []
    ensures e != null ==> e.Valid()
    ensures e != null && e.contents == d.contents <==> Normal(d.contents) && AllSurvive(d.contents)
    ensures AllAlone(d.contents) ==> e != null && e.contents == Reloaded(d.contents)
  {
    hide Sections, DumpText, LoadFile, Normal, Reloaded, AllAlone, AllSurvive;
    RoundTrip(d.key[..], d.val[..], d.hash[..], d.contents);
    if AllAlone(d.contents) {
      DumpThenLoad(d.key[..], d.val[..], d.contents);
    }
    SectionsAreTheColonFreeKeys(d.key[..], d.val[..], d.contents);
    assert "" + DumpText(d.key[..], d.val[..], d.contents) == DumpText(d.key[..], d.val[..], d.contents);
    var text := DumpIni(d, Some(""));
    assert text == Some(DumpText(d.key[..], d.val[..], d.contents));
    e := Load(text);
  }
}
