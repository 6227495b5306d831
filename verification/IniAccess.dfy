/** Access to a loaded dictionary by entry name, blind to letter case. */
module IniAccess {
  import opened CText
  import opened CBuffers
  import opened Sscanf
  import opened Dictionary
  import opened IniLine
  import opened IniLoad

  /** strlwc into a buffer of ASCIILINESZ + 1 characters. */
  function Fold(entry: string): string {
    Lower(Take(entry, ASCIILINESZ))
  }

  /** strlwc(entry, tmp_str, sizeof(tmp_str)), NULL for a NULL entry. */
  method FoldEntry(entry: Option<string>) returns (lc: Option<string>)
    requires entry.Some? ==> Without(entry.value, NUL)
    ensures lc == if entry.None? then None else Some(Fold(entry.value))
  {
    if entry.None? {
      return None;
    }
    var in_ := new char[|entry.value| + 1];
    StoreText(entry.value, in_);
    var tmp := new char[ASCIILINESZ + 1];
    var _ := StrLwc(in_, tmp, ASCIILINESZ + 1);
    return Some(TextOf(tmp[..]));
  }

  /** iniparser_set: -1 for a NULL dictionary or entry, else 0. */
  method Set(ini: Dict?, entry: Option<string>, v: Option<string>) returns (ret: int)
    requires ini != null ==> ini.Valid()
    requires entry.Some? ==> Without(entry.value, NUL)
    modifies Footprint(ini)
    ensures ret == if ini == null || entry.None? then -1 else 0
    ensures ini != null ==> ini.Valid() && fresh(ini.Repr() - old(Footprint(ini)))
    ensures ini != null ==>
              ini.contents == if entry.None? then old(ini.contents) else old(ini.contents)[Fold(entry.value) := v]
  {
    hide Dict.Valid, Table, Represents, Cached, CountUsed;
    var lc := FoldEntry(entry);
    ret := DictionarySet(ini, lc, v);
  }

  /** iniparser_unset */
  method Unset(ini: Dict?, entry: Option<string>)
    requires ini != null ==> ini.Valid()
    requires entry.Some? ==> Without(entry.value, NUL)
    modifies Footprint(ini)
    ensures ini != null ==> ini.Valid() && ini.Repr() == old(Footprint(ini))
    ensures ini != null ==>
              ini.contents == if entry.None? then old(ini.contents) else old(ini.contents) - {Fold(entry.value)}
  {
    hide Dict.Valid, Table, Represents, Cached, CountUsed;
    var lc := FoldEntry(entry);
    DictionaryUnset(ini, lc);
  }

  /** iniparser_getstring */
  method GetString(d: Dict?, key: Option<string>, def: Pointer) returns (r: Pointer)
    requires d != null ==> d.Valid()
    requires key.Some? ==> Without(key.value, NUL)
    ensures r == if d == null || key.None? then def else Lookup(d.contents, Fold(key.value), def)
    ensures d != null && key.Some? && Fold(key.value) in d.contents ==>
              var v := d.contents[Fold(key.value)]; r == if v.Some? then Text(v.value) else Null
  {
    if d == null || key.None? {
      return def;
    }
    var lc := FoldEntry(key);
    r := d.Get(lc.value, def);
  }

  /** iniparser_find_entry: a key with a NULL value is found too. */
  method FindEntry(ini: Dict?, entry: Option<string>) returns (found: bool)
    requires ini != null ==> ini.Valid()
    requires entry.Some? ==> Without(entry.value, NUL)
    ensures found <==> ini != null && entry.Some? && Fold(entry.value) in ini.contents
  {
    var r := GetString(ini, entry, InvalidKey);
    return r != InvalidKey;
  }

  // Runs of set and unset.

  datatype Op = Put(entry: string, v: Option<string>) | Drop(entry: string)

  function RunOps(m: Store, ops: seq<Op>): Store {
    if ops == [] then m
    else
      var before := RunOps(m, ops[..|ops| - 1]);
      match ops[|ops| - 1]
      case Put(entry, v) => before[Fold(entry) := v]
      case Drop(entry) => before - {Fold(entry)}
  }

  /** Any run of the two writers on one dictionary is the same run on the map. */
  method Replay(ini: Dict, ops: seq<Op>)
    requires ini.Valid()
    requires forall i :: 0 <= i < |ops| ==> Without(ops[i].entry, NUL)
    modifies ini.Repr()
    ensures ini.Valid() && fresh(ini.Repr() - old(ini.Repr()))
    ensures ini.contents == RunOps(old(ini.contents), ops)
  {
    hide Dict.Valid, Table, Represents, Cached, CountUsed;
    assert ops[..0] == [];
    for i := 0 to |ops|
      invariant ini.Valid() && fresh(ini.Repr() - old(ini.Repr()))
      invariant ini.contents == RunOps(old(ini.contents), ops[..i])
    {
      assert ops[..i + 1][..i] == ops[..i];
      match ops[i] {
        case Put(entry, v) => var _ := Set(ini, Some(entry), v);
        case Drop(entry) => Unset(ini, Some(entry));
      }
    }
    assert ops[..|ops|] == ops;
  }

  /** Equal up to letter case, as far as the buffer reaches. */
  ghost predicate SameEntry(a: string, b: string) {
    var s, t := Take(a, ASCIILINESZ), Take(b, ASCIILINESZ);
    |s| == |t| && forall i :: 0 <= i < |s| ==> ToLower(s[i]) == ToLower(t[i])
  }

  lemma FoldSame(a: string, b: string)
    ensures Fold(a) == Fold(b) <==> SameEntry(a, b)
  {
    var s, t := Take(a, ASCIILINESZ), Take(b, ASCIILINESZ);
    if Fold(a) == Fold(b) {
      assert |Lower(s)| == |Lower(t)|;
      forall i | 0 <= i < |s|
        ensures ToLower(s[i]) == ToLower(t[i])
      {
        assert Lower(s)[i] == Lower(t)[i];
      }
    }
  }

  /** What the last operation on an entry under any casing left there. */
  datatype Trace = Untouched | Removed | Holds(v: Option<string>)

  ghost function LastWrite(ops: seq<Op>, e: string): Trace {
    if ops == [] then Untouched
    else
      var op := ops[|ops| - 1];
      if !SameEntry(op.entry, e) then LastWrite(ops[..|ops| - 1], e)
      else if op.Put? then Holds(op.v)
      else Removed
  }

  /** Whatever casing each call used, a read sees the last write not followed by an unset. */
  lemma {:induction false} CaseBlind(m: Store, ops: seq<Op>, e: string, def: Pointer)
    ensures Lookup(RunOps(m, ops), Fold(e), def) ==
            match LastWrite(ops, e)
            case Untouched => Lookup(m, Fold(e), def)
            case Removed => def
            case Holds(v) => ToPointer(v)
    decreases |ops|
  {
    if ops == [] {
    } else {
      FoldSame(ops[|ops| - 1].entry, e);
      CaseBlind(m, ops[..|ops| - 1], e, def);
    }
  }

  /** For entries that fit the buffer, the folded names agree exactly up to letter case. */
  lemma SameEntryShort(a: string, b: string)
    requires |a| <= 1024 && |b| <= 1024
    ensures SameEntry(a, b) <==> Lower(a) == Lower(b)
  {
    FoldSame(a, b);
  }

  // Loaded dictionaries.

  ghost predicate LowercaseKeys(m: Store) {
    forall k :: k in m ==> Lower(k) == k
  }

  lemma LowerConcat(a: string, b: string)
    requires Lower(a) == a && Lower(b) == b
    ensures Lower(a + ":" + b) == a + ":" + b
  {
    var s := a + ":" + b;
    forall i | 0 <= i < |s|
      ensures ToLower(s[i]) == s[i]
    {
      if i < |a| {
        assert Lower(a)[i] == a[i];
      } else if i > |a| {
        assert Lower(b)[i - |a| - 1] == b[i - |a| - 1];
      }
    }
  }

  lemma ProcessKeepsLowercase(st: Loader, text: string)
    requires LowercaseKeys(st.store) && Lower(st.section) == st.section
    ensures var r := Process(st, text); LowercaseKeys(r.store) && Lower(r.section) == r.section
  {
    hide Scan, Strip;
    match Classify(text, st.section)
    case Value(k, v) =>
      assert Lower(k) == k;
      LowerConcat(st.section, k);
    case Section(name) =>
      assert Lower(name) == name;
    case _ =>
  }

  lemma {:induction false} RunKeepsLowercase(st: Loader, input: string)
    requires Fits(st) && LowercaseKeys(st.store) && Lower(st.section) == st.section
    ensures Run(st, input).Some? ==> LowercaseKeys(Run(st, input).value.store)
    decreases |input|
  {
    hide Gets, HitEof, Judge, Process, LowercaseKeys, Lower, TextOf;
    if input == "" {
    } else {
      var chunk := Gets(input, Room(st));
      var eof := HitEof(chunk, Room(st));
      var v := Judge(st.acc + TextOf(chunk), eof);
      var next := Step(st, chunk, eof);
      if v.Complete? {
        ProcessKeepsLowercase(st.(acc := ""), v.text);
      }
      if next.Some? {
        RunKeepsLowercase(next.value, input[|chunk|..]);
      }
    }
  }

  ghost predicate PlainKeys(m: Store) {
    forall k :: k in m ==> Without(k, NUL)
  }

  lemma StripKeeps(s: string, c: char)
    requires Without(s, c)
    ensures Without(Strip(s), c)
  {
    var a, b := StripSplits(s);
    assert forall i :: 0 <= i < |Strip(s)| ==> Strip(s)[i] == s[|a| + i];
  }

  lemma CleanKeeps(s: string, len: nat)
    requires len > 0 && Without(s, NUL)
    ensures Without(CleanName(s, len), NUL)
  {
    hide Strip;
    StripKeeps(s, NUL);
  }

  lemma PairPlain(line: string)
    requires line != "" && Without(line, NUL)
    ensures ClassifyPair(line).Value? ==> Without(ClassifyPair(line).key, NUL)
  {
    hide Scan, Strip, CleanName;
    forall fmt: Format | |Scan(fmt, line)| == 2
      ensures Without(CleanName(Scan(fmt, line)[0], |line|), NUL)
    {
      ScanBounded(fmt, line, NUL);
      CleanKeeps(Scan(fmt, line)[0], |line|);
    }
  }

  /** No line of a file brings a NUL into a section name or a key. */
  lemma ClassifyPlain(text: string, section: string)
    requires Without(text, NUL) && Without(section, NUL)
    ensures match Classify(text, section)
            case Section(name) => Without(name, NUL)
            case Value(k, v) => Without(k, NUL)
            case _ => true
  {
    hide Scan, Strip, CleanName, ClassifyPair;
    var line := Strip(text);
    StripKeeps(text, NUL);
    if line != "" {
      PairPlain(line);
      ScanBounded(SECTION_FORMAT, line, NUL);
      var got := Scan(SECTION_FORMAT, line);
      CleanKeeps(if |got| == 1 then got[0] else section, |line|);
    }
  }

  lemma ProcessKeepsPlain(st: Loader, text: string)
    requires PlainKeys(st.store) && Without(st.section, NUL) && Without(text, NUL)
    ensures var r := Process(st, text); PlainKeys(r.store) && Without(r.section, NUL)
  {
    hide Classify;
    ClassifyPlain(text, st.section);
  }

  lemma RTrimKeeps(s: string, c: char)
    requires Without(s, c)
    ensures Without(RTrim(s), c)
  {
    hide RTrim;
    var b := RTrimSplits(s);
    assert forall i :: 0 <= i < |RTrim(s)| ==> RTrim(s)[i] == s[i];
  }

  lemma JudgePlain(line: string, eof: bool)
    requires Without(line, NUL)
    ensures match Judge(line, eof)
            case Pending(acc) => Without(acc, NUL)
            case Complete(text) => Without(text, NUL)
            case _ => true
  {
    hide RTrim;
    RTrimKeeps(line, NUL);
  }

  lemma TextPlain(a: seq<char>)
    ensures Without(TextOf(a), NUL)
  {
  }

  /** A loaded dictionary has no key with a NUL in it, whatever bytes the file holds. */
  lemma {:induction false} RunKeepsPlain(st: Loader, input: string)
    requires Fits(st) && PlainKeys(st.store) && Without(st.section, NUL) && Without(st.acc, NUL)
    ensures Run(st, input).Some? ==> PlainKeys(Run(st, input).value.store)
    decreases |input|
  {
    hide Gets, HitEof, Judge, Process, PlainKeys, TextOf;
    if input == "" {
    } else {
      var chunk := Gets(input, Room(st));
      var eof := HitEof(chunk, Room(st));
      var line := st.acc + TextOf(chunk);
      assert Without(TextOf(chunk), NUL) by {
        TextPlain(chunk);
      }
      JudgePlain(line, eof);
      var v := Judge(line, eof);
      var next := Step(st, chunk, eof);
      if v.Complete? {
        ProcessKeepsPlain(st.(acc := ""), v.text);
      }
      if next.Some? {
        RunKeepsPlain(next.value, input[|chunk|..]);
      }
    }
  }

  lemma LoadedKeysPlain(input: string, m: Store)
    requires LoadFile(input) == Some(m)
    ensures PlainKeys(m)
  {
    hide Run;
    RunKeepsPlain(INIT, input);
  }

  /** An entry of a loaded file is looked up under its own name, whatever casing the call uses, exactly
      when the name fits the buffer; then its value is found. */
  lemma LoadedEntriesReachable(input: string, m: Store, k: string, e: string, def: Pointer)
    requires LoadFile(input) == Some(m) && k in m
    requires Lower(e) == k
    ensures Fold(e) == k <==> |k| <= 1024
    ensures |k| <= 1024 ==> Lookup(m, Fold(e), def) == if m[k].Some? then Text(m[k].value) else Null
    ensures |k| > 1024 ==> Lookup(m, Fold(e), def) == Lookup(m, k[..1024], def)
  {
    hide Run;
    RunKeepsLowercase(INIT, input);
    assert |Lower(e)| == |e|;
    assert |k| <= ASCIILINESZ ==> Take(e, ASCIILINESZ) == e;
    assert |k| > ASCIILINESZ ==> Fold(e) == k[..ASCIILINESZ];
  }
}
