/** The ini printer. */
module IniDump {
  import opened CText
  import opened CBuffers
  import opened Dictionary
  import opened IniLoad
  import opened IniAccess
  import opened IniIndex

  /** What glibc prints for a NULL string under `%s`. */
  const NULL_TEXT := "(null)"

  function ValueOr(v: Option<string>, other: string): string {
    if v.Some? then v.value else other
  }

  function Spaces(n: nat): string {
    if n == 0 then "" else " " + Spaces(n - 1)
  }

  /** `%-30s` */
  function PadRight30(s: string): string {
    if |s| < 30 then s + Spaces(30 - |s|) else s
  }

  // The formats of the four fprintf calls.

  function SectionHead(s: string): string {
    "\n[" + s + "]\n"
  }

  function EntryText(k: string, v: string): string {
    PadRight30(k) + " = " + v
  }

  function EntryLine(k: string, v: string): string {
    EntryText(k, v) + "\n"
  }

  function BareLine(k: string, v: Option<string>): string {
    k + " = " + ValueOr(v, NULL_TEXT) + "\n"
  }

  function SlotLine(k: Option<string>, v: Option<string>, s: string): string {
    if k.Some? && Belongs(k.value, s) then EntryLine(k.value[|s| + 1..], ValueOr(v, "")) else ""
  }

  /** The entry lines of section `s`, in slot order. */
  function EntryLines(keys: Slots, vals: Slots, s: string): string
    requires |keys| == |vals|
  {
    if keys == [] then "" else SlotLine(keys[0], vals[0], s) + EntryLines(keys[1..], vals[1..], s)
  }

  /** iniparser_dumpsection_ini; a section the folded lookup misses prints nothing. */
  ghost function SectionText(keys: Slots, vals: Slots, m: Store, s: string): string
    requires |keys| == |vals|
  {
    if Fold(s) in m then SectionHead(s) + EntryLines(keys, vals, s) + "\n" else ""
  }

  ghost function SectionTexts(keys: Slots, vals: Slots, m: Store, names: seq<string>): string
    requires |keys| == |vals|
  {
    if names == [] then "" else SectionText(keys, vals, m, names[0]) + SectionTexts(keys, vals, m, names[1..])
  }

  /** A dictionary without sections is printed key by key. */
  function BareLines(keys: Slots, vals: Slots): string
    requires |keys| == |vals|
  {
    if keys == [] then ""
    else (if keys[0].Some? then BareLine(keys[0].value, vals[0]) else "") + BareLines(keys[1..], vals[1..])
  }

  /** iniparser_dump_ini */
  ghost function DumpText(keys: Slots, vals: Slots, m: Store): string
    requires |keys| == |vals|
  {
    if Sections(keys) == [] then BareLines(keys, vals)
    else SectionTexts(keys, vals, m, Sections(keys)) + "\n"
  }

  lemma {:induction false} EntryLinesSnoc(keys: Slots, vals: Slots, s: string, i: nat)
    requires |keys| == |vals| && i < |keys|
    ensures EntryLines(keys[..i + 1], vals[..i + 1], s) ==
            EntryLines(keys[..i], vals[..i], s) + SlotLine(keys[i], vals[i], s)
  {
    hide SlotLine;
    if i == 0 {
      assert keys[..1][1..] == [] && keys[..0] == [] && vals[..1][1..] == [];
    } else {
      assert keys[..i + 1][1..] == keys[1..][..i] && vals[..i + 1][1..] == vals[1..][..i];
      assert keys[..i][1..] == keys[1..][..i - 1] && vals[..i][1..] == vals[1..][..i - 1];
      EntryLinesSnoc(keys[1..], vals[1..], s, i - 1);
    }
  }

  lemma {:induction false} BareLinesSnoc(keys: Slots, vals: Slots, i: nat)
    requires |keys| == |vals| && i < |keys|
    ensures BareLines(keys[..i + 1], vals[..i + 1]) ==
            BareLines(keys[..i], vals[..i]) + if keys[i].Some? then BareLine(keys[i].value, vals[i]) else ""
  {
    hide BareLine;
    if i == 0 {
      assert keys[..1][1..] == [] && keys[..0] == [] && vals[..1][1..] == [];
    } else {
      assert keys[..i + 1][1..] == keys[1..][..i] && vals[..i + 1][1..] == vals[1..][..i];
      assert keys[..i][1..] == keys[1..][..i - 1] && vals[..i][1..] == vals[1..][..i - 1];
      BareLinesSnoc(keys[1..], vals[1..], i - 1);
    }
  }

  lemma {:induction false} SectionTextsSnoc(keys: Slots, vals: Slots, m: Store, names: seq<string>, i: nat)
    requires |keys| == |vals| && i < |names|
    ensures SectionTexts(keys, vals, m, names[..i + 1]) ==
            SectionTexts(keys, vals, m, names[..i]) + SectionText(keys, vals, m, names[i])
  {
    if i == 0 {
      assert names[..1][1..] == [] && names[..0] == [];
    } else {
      assert names[..i + 1][1..] == names[1..][..i] && names[..i][1..] == names[1..][..i - 1];
      SectionTextsSnoc(keys, vals, m, names[1..], i - 1);
    }
  }

  /** A file that may be NULL, with more text printed to it. */
  function Printed(f: Option<string>, text: string): Option<string> {
    if f.None? then None else Some(f.value + text)
  }

  lemma PrintedTwice(f: Option<string>, a: string, b: string)
    ensures Printed(Printed(f, a), b) == Printed(f, a + b)
  {
    if f.Some? {
      assert (f.value + a) + b == f.value + (a + b);
    }
  }

  /** The loop of iniparser_dumpsection_ini. */
  method DumpEntries(d: Dict, seclen: nat, keym: string, ghost s: string) returns (lines: string)
    requires d.Valid() && seclen == |s| && keym == s + ":"
    ensures lines == EntryLines(d.key[..], d.val[..], s)
  {
    hide Table, CountUsed, EntryLine;
    lines := "";
    ghost var keys, vals := d.key[..], d.val[..];
    for j := 0 to d.size
      invariant lines == EntryLines(keys[..j], vals[..j], s)
    {
      EntryLinesSnoc(keys, vals, s, j);
      if d.key[j].Some? && keym <= d.key[j].value {
        lines := lines + EntryLine(d.key[j].value[seclen + 1..], ValueOr(d.val[j], ""));
      }
    }
    assert keys[..d.size] == keys && vals[..d.size] == vals;
  }

  /** iniparser_dumpsection_ini, the file being the text printed so far. The name of a present
      section and a colon must fit the buffer that sprintf fills. */
  method DumpSection(d: Dict?, s: Option<string>, f: Option<string>) returns (f': Option<string>)
    requires d != null ==> d.Valid()
    requires s.Some? ==> Without(s.value, NUL)
    requires d != null && f.Some? && s.Some? && Present(d, s.value) ==> |s.value| < ASCIILINESZ
    ensures d != null && s.Some? && Fold(s.value) !in d.contents ==> f' == f
    ensures f' == if d == null || s.None? then f else Printed(f, SectionText(d.key[..], d.val[..], d.contents, s.value))
  {
    hide Dict.Valid, Table, Represents, Cached, CountUsed, EntryLine, EntryLines, SectionHead;
    if d == null || f.None? {
      return f;
    }
    var found := FindEntry(d, s);
    if !found {
      assert f.value + "" == f.value;
      return f;
    }
    var name := s.value;
    var seclen := |name|;
    var out := f.value + SectionHead(name);
    var keym := name + ":";
    var lines := DumpEntries(d, seclen, keym, name);
    out := out + lines;
    out := out + "\n";
    assert out == f.value + (SectionHead(name) + lines + "\n");
    return Some(out);
  }

  method DumpBare(d: Dict) returns (lines: string)
    requires d.Valid()
    ensures lines == BareLines(d.key[..], d.val[..])
  {
    hide Table, CountUsed, BareLine;
    lines := "";
    ghost var keys, vals := d.key[..], d.val[..];
    for i := 0 to d.size
      invariant lines == BareLines(keys[..i], vals[..i])
    {
      BareLinesSnoc(keys, vals, i);
      if d.key[i].Some? {
        lines := lines + BareLine(d.key[i].value, d.val[i]);
      }
    }
    assert keys[..d.size] == keys && vals[..d.size] == vals;
  }

  /** iniparser_dump_ini */
  method DumpIni(d: Dict?, f: Option<string>) returns (f': Option<string>)
    requires d != null ==> d.Valid()
    requires d != null && f.Some? ==>
               forall s :: s in Sections(d.key[..]) ==> Without(s, NUL) && (Present(d, s) ==> |s| < ASCIILINESZ)
    ensures f' == if d == null then f else Printed(f, DumpText(d.key[..], d.val[..], d.contents))
  {
    hide Table, CountUsed, Sections, SectionText, BareLines;
    if d == null || f.None? {
      return f;
    }
    ghost var keys, vals := d.key[..], d.val[..];
    var nsec := GetNSec(d);
    if nsec < 1 {
      var lines := DumpBare(d);
      return Printed(f, lines);
    }
    f' := f;
    ghost var names := Sections(keys);
    assert f.value + "" == f.value;
    for i := 0 to nsec
      invariant f' == Printed(f, SectionTexts(keys, vals, d.contents, names[..i]))
    {
      SectionTextsSnoc(keys, vals, d.contents, names, i);
      var secname := GetSecName(d, i);
      assert secname.value in names;
      f' := DumpSection(d, secname, f');
      PrintedTwice(f, SectionTexts(keys, vals, d.contents, names[..i]), SectionText(keys, vals, d.contents, names[i]));
    }
    assert names[..nsec] == names;
    PrintedTwice(f, SectionTexts(keys, vals, d.contents, names), "\n");
    f' := Printed(f', "\n");
  }

  lemma {:induction false} SpacesBlank(n: nat)
    ensures |Spaces(n)| == n && forall i :: 0 <= i < n ==> Spaces(n)[i] == ' '
  {
    if n == 0 {
    } else {
      SpacesBlank(n - 1);
    }
  }

  /** Where an entry line has its equals sign: in column 32, or two columns behind a longer key. */
  lemma EntryColumns(k: string, v: string)
    ensures var gap := if |k| < 30 then 30 - |k| else 0;
            && EntryLine(k, v) == k + Spaces(gap) + " = " + v + "\n"
            && |k + Spaces(gap)| == (if |k| < 30 then 30 else |k|)
            && (|k| <= 30 ==> EntryLine(k, v)[31] == '=')
  {
    var gap := if |k| < 30 then 30 - |k| else 0;
    SpacesBlank(gap);
    assert Spaces(0) == "" && k + "" == k;
    var head := k + Spaces(gap);
    assert EntryLine(k, v) == head + (" = " + v + "\n");
    assert |k| <= 30 ==> EntryLine(k, v)[31] == (" = " + v + "\n")[1];
  }
}
