/** Sections and their keys, found by scanning the slots of a dictionary. */
module IniIndex {
  import opened CText
  import opened CBuffers
  import opened Dictionary
  import opened IniLoad
  import opened IniAccess

  /** A section is stored under its bare name, an entry under "section:key". */
  predicate IsSectionName(k: string) {
    IndexOf(k, ':') == |k|
  }

  /** The text before the first colon. */
  function SectionOf(k: string): string {
    k[..IndexOf(k, ':')]
  }

  /** strncmp(k, keym, seclen + 1) == 0 for keym = "section:". */
  predicate Belongs(k: string, s: string) {
    s + ":" <= k
  }

  /** All colon-free keys, in slot order. */
  function Sections(keys: Slots): seq<string> {
    if keys == [] then []
    else (if keys[0].Some? && IsSectionName(keys[0].value) then [keys[0].value] else []) + Sections(keys[1..])
  }

  /** All keys of section `s`, in slot order. */
  function KeysIn(keys: Slots, s: string): seq<string> {
    if keys == [] then []
    else (if keys[0].Some? && Belongs(keys[0].value, s) then [keys[0].value] else []) + KeysIn(keys[1..], s)
  }

  lemma {:induction false} SectionsSnoc(keys: Slots, i: nat)
    requires i < |keys|
    ensures Sections(keys[..i + 1]) ==
            Sections(keys[..i]) + if keys[i].Some? && IsSectionName(keys[i].value) then [keys[i].value] else []
  {
    if i == 0 {
      assert keys[..1][1..] == [] && keys[..0] == [];
    } else {
      assert keys[..i + 1][1..] == keys[1..][..i];
      assert keys[..i][1..] == keys[1..][..i - 1];
      SectionsSnoc(keys[1..], i - 1);
    }
  }

  lemma {:induction false} KeysInSnoc(keys: Slots, s: string, i: nat)
    requires i < |keys|
    ensures KeysIn(keys[..i + 1], s) ==
            KeysIn(keys[..i], s) + if keys[i].Some? && Belongs(keys[i].value, s) then [keys[i].value] else []
  {
    if i == 0 {
      assert keys[..1][1..] == [] && keys[..0] == [];
    } else {
      assert keys[..i + 1][1..] == keys[1..][..i];
      assert keys[..i][1..] == keys[1..][..i - 1];
      KeysInSnoc(keys[1..], s, i - 1);
    }
  }

  lemma {:induction false} SectionsAppend(a: Slots, b: Slots)
    ensures Sections(a + b) == Sections(a) + Sections(b)
  {
    if a == [] {
      assert a + b == b;
    } else {
      assert (a + b)[1..] == a[1..] + b;
      SectionsAppend(a[1..], b);
    }
  }

  /** iniparser_getnsec */
  method GetNSec(d: Dict?) returns (nsec: int)
    requires d != null ==> d.Valid()
    ensures nsec == if d == null then -1 else |Sections(d.key[..])|
  {
    hide Table, CountUsed;
    if d == null {
      return -1;
    }
    nsec := 0;
    ghost var keys := d.key[..];
    for i := 0 to d.size
      invariant nsec == |Sections(keys[..i])|
    {
      SectionsSnoc(keys, i);
      if d.key[i].Some? && IndexOf(d.key[i].value, ':') == |d.key[i].value| {
        nsec := nsec + 1;
      }
    }
    assert keys[..d.size] == keys;
  }

  /** iniparser_getsecname: the n-th section in slot order, NULL for any other n. */
  method GetSecName(d: Dict?, n: int) returns (name: Option<string>)
    requires d != null ==> d.Valid()
    ensures name == if d == null || n < 0 || n >= |Sections(d.key[..])| then None else Some(Sections(d.key[..])[n])
  {
    hide Table, CountUsed;
    if d == null || n < 0 {
      return None;
    }
    var found, i := 0, 0;
    ghost var keys := d.key[..];
    assert keys[..0] == [];
    while i < d.size
      invariant 0 <= i <= d.size && found == |Sections(keys[..i])| <= n
    {
      SectionsSnoc(keys, i);
      if d.key[i].Some? && IndexOf(d.key[i].value, ':') == |d.key[i].value| {
        found := found + 1;
        if found > n {
          break;
        }
      }
      i := i + 1;
    }
    if found <= n {
      assert keys[..d.size] == keys;
      return None;
    }
    assert keys == keys[..i + 1] + keys[i + 1..];
    SectionsAppend(keys[..i + 1], keys[i + 1..]);
    return d.key[i];
  }

  /** iniparser_find_entry finds the section. */
  ghost predicate Present(d: Dict, s: string)
    reads d
  {
    Fold(s) in d.contents
  }

  /** What iniparser_getsecnkeys answers for a section name. */
  function SecNKeys(m: Store, keys: Slots, s: string): nat {
    if Fold(s) in m then |KeysIn(keys, Lower(s))| else 0
  }

  /** strlwc(s, keym, sizeof(keym)); keym[seclen] = ':'; the first seclen + 1 characters. */
  method SectionPrefix(s: string) returns (keym: string)
    requires Without(s, NUL) && |s| <= ASCIILINESZ
    ensures keym == Lower(s) + ":"
  {
    var in_ := new char[|s| + 1];
    StoreText(s, in_);
    var buf := new char[ASCIILINESZ + 1];
    var _ := StrLwc(in_, buf, ASCIILINESZ + 1);
    TerminatedLength(buf[..]);
    assert Take(s, ASCIILINESZ) == s;
    assert buf[..|s|] == Lower(s);
    buf[|s|] := ':';
    keym := buf[..|s| + 1];
    assert buf[..|s|] == Lower(s);
  }

  /** iniparser_getsecnkeys. A longer name than the buffer holds must not be a present section. */
  method GetSecNKeys(d: Dict?, s: Option<string>) returns (nkeys: int)
    requires d != null ==> d.Valid()
    requires s.Some? ==> Without(s.value, NUL)
    requires d != null && s.Some? && Present(d, s.value) ==> |s.value| <= ASCIILINESZ
    ensures d != null && s.Some? && Fold(s.value) !in d.contents ==> nkeys == 0
    ensures d != null && s.Some? && Fold(s.value) in d.contents ==> nkeys == |KeysIn(d.key[..], Lower(s.value))|
    ensures nkeys == if d == null || s.None? then 0 else SecNKeys(d.contents, d.key[..], s.value)
  {
    hide Table, CountUsed;
    nkeys := 0;
    if d == null {
      return;
    }
    var found := FindEntry(d, s);
    if !found {
      return;
    }
    var keym := SectionPrefix(s.value);
    ghost var keys := d.key[..];
    for j := 0 to d.size
      invariant nkeys == |KeysIn(keys[..j], Lower(s.value))|
    {
      KeysInSnoc(keys, Lower(s.value), j);
      if d.key[j].Some? && keym <= d.key[j].value {
        nkeys := nkeys + 1;
      }
    }
    assert keys[..d.size] == keys;
  }

  lemma {:induction false} KeysInAppend(a: Slots, b: Slots, s: string)
    ensures KeysIn(a + b, s) == KeysIn(a, s) + KeysIn(b, s)
  {
    if a == [] {
      assert a + b == b;
    } else {
      assert (a + b)[1..] == a[1..] + b;
      KeysInAppend(a[1..], b, s);
    }
  }

  /** The next slot of a section is the next entry of its key list. */
  lemma KeysInNext(keys: Slots, s: string, j: nat)
    requires j < |keys|
    ensures var n := |KeysIn(keys[..j], s)|;
            if keys[j].Some? && Belongs(keys[j].value, s)
            then |KeysIn(keys[..j + 1], s)| == n + 1 <= |KeysIn(keys, s)| && KeysIn(keys, s)[n] == keys[j].value
            else |KeysIn(keys[..j + 1], s)| == n <= |KeysIn(keys, s)|
  {
    KeysInSnoc(keys, s, j);
    assert keys == keys[..j + 1] + keys[j + 1..];
    KeysInAppend(keys[..j + 1], keys[j + 1..], s);
  }

  /** iniparser_getseckeys: fills `out` and says whether it did. */
  method GetSecKeys(d: Dict?, s: Option<string>, out: array?<string>) returns (ok: bool)
    requires d != null ==> d.Valid() && out as object? !in d.Repr()
    requires s.Some? ==> Without(s.value, NUL)
    requires d != null && out != null && s.Some? && Present(d, s.value) ==>
               |s.value| <= ASCIILINESZ && SecNKeys(d.contents, d.key[..], s.value) <= out.Length
    modifies if out == null then {} else {out}
    ensures ok <==> d != null && out != null && s.Some? && Present(d, s.value)
    ensures !ok && out != null ==> out[..] == old(out[..])
    ensures ok ==> var ks := KeysIn(d.key[..], Lower(s.value)); out[..] == ks + old(out[..])[|ks|..]
    ensures ok ==> |KeysIn(d.key[..], Lower(s.value))| == SecNKeys(d.contents, d.key[..], s.value)
  {
    hide Table, CountUsed;
    if d == null || out == null {
      return false;
    }
    var found := FindEntry(d, s);
    if !found {
      return false;
    }
    var keym := SectionPrefix(s.value);
    var i := 0;
    ghost var keys := d.key[..];
    ghost var ks := KeysIn(keys, Lower(s.value));
    for j := 0 to d.size
      invariant i == |KeysIn(keys[..j], Lower(s.value))| <= |ks|
      invariant forall k :: 0 <= k < i ==> out[k] == ks[k]
      invariant forall k :: i <= k < out.Length ==> out[k] == old(out[k])
    {
      KeysInNext(keys, Lower(s.value), j);
      if d.key[j].Some? && keym <= d.key[j].value {
        out[i] := d.key[j].value;
        i := i + 1;
      }
    }
    assert keys[..d.size] == keys;
    assert out[..] == ks + old(out[..])[|ks|..];
    return true;
  }

  // What the index says about the map.

  ghost predicate NoRepeats(keys: Slots) {
    forall i, j :: 0 <= i < j < |keys| && keys[i].Some? ==> keys[i] != keys[j]
  }

  ghost predicate Distinct(names: seq<string>) {
    forall i, j :: 0 <= i < j < |names| ==> names[i] != names[j]
  }

  lemma {:induction false} SectionsMembers(keys: Slots, s: string)
    ensures s in Sections(keys) <==> Some(s) in keys && IsSectionName(s)
  {
    if keys == [] {
    } else {
      SectionsMembers(keys[1..], s);
      assert keys == [keys[0]] + keys[1..];
    }
  }

  lemma {:induction false} SectionsDistinct(keys: Slots)
    requires NoRepeats(keys)
    ensures Distinct(Sections(keys))
  {
    if keys == [] {
    } else {
      var tail := Sections(keys[1..]);
      SectionsDistinct(keys[1..]);
      if keys[0].Some? && IsSectionName(keys[0].value) {
        SectionsMembers(keys[1..], keys[0].value);
        assert Sections(keys) == [keys[0].value] + tail;
        assert keys[0].value !in tail;
      }
    }
  }

  /** The section list holds each colon-free key of the map exactly once, and nothing else. */
  lemma SectionsAreTheColonFreeKeys(keys: Slots, vals: Slots, m: Store)
    requires Represents(keys, vals, m)
    ensures Distinct(Sections(keys))
    ensures forall s :: s in Sections(keys) <==> s in m && IsSectionName(s)
    ensures forall s :: s in Sections(keys) <==> s in m && ':' !in s
  {
    SectionsDistinct(keys);
    forall s
      ensures s in Sections(keys) <==> s in m && IsSectionName(s)
    {
      SectionsMembers(keys, s);
    }
  }

  lemma {:induction false} SlotOfSection(keys: Slots, n: nat) returns (i: nat)
    requires n < |Sections(keys)|
    ensures i < |keys| && keys[i] == Some(Sections(keys)[n])
  {
    if keys[0].Some? && IsSectionName(keys[0].value) && n == 0 {
      i := 0;
    } else {
      var skip := if keys[0].Some? && IsSectionName(keys[0].value) then 1 else 0;
      var j := SlotOfSection(keys[1..], n - skip);
      i := j + 1;
    }
  }

  /** The section list is in slot order. */
  lemma {:induction false} SectionsInSlotOrder(keys: Slots, n: nat, p: nat) returns (i: nat, j: nat)
    requires n < p < |Sections(keys)|
    ensures i < j < |keys| && keys[i] == Some(Sections(keys)[n]) && keys[j] == Some(Sections(keys)[p])
  {
    var skip := if keys[0].Some? && IsSectionName(keys[0].value) then 1 else 0;
    if skip == 1 && n == 0 {
      i := 0;
      j := SlotOfSection(keys[1..], p - 1);
      j := j + 1;
    } else {
      i, j := SectionsInSlotOrder(keys[1..], n - skip, p - skip);
      i, j := i + 1, j + 1;
    }
  }

  lemma {:induction false} SlotOfKey(keys: Slots, s: string, n: nat) returns (i: nat)
    requires n < |KeysIn(keys, s)|
    ensures i < |keys| && keys[i] == Some(KeysIn(keys, s)[n])
  {
    if keys[0].Some? && Belongs(keys[0].value, s) && n == 0 {
      i := 0;
    } else {
      var skip := if keys[0].Some? && Belongs(keys[0].value, s) then 1 else 0;
      var j := SlotOfKey(keys[1..], s, n - skip);
      i := j + 1;
    }
  }

  /** And so are the keys of a section. */
  lemma {:induction false} KeysInSlotOrder(keys: Slots, s: string, n: nat, p: nat) returns (i: nat, j: nat)
    requires n < p < |KeysIn(keys, s)|
    ensures i < j < |keys| && keys[i] == Some(KeysIn(keys, s)[n]) && keys[j] == Some(KeysIn(keys, s)[p])
  {
    var skip := if keys[0].Some? && Belongs(keys[0].value, s) then 1 else 0;
    if skip == 1 && n == 0 {
      i := 0;
      j := SlotOfKey(keys[1..], s, p - 1);
      j := j + 1;
    } else {
      i, j := KeysInSlotOrder(keys[1..], s, n - skip, p - skip);
      i, j := i + 1, j + 1;
    }
  }

  /** The keys of a section are exactly the keys that start with its name and a colon, each once. */
  lemma {:induction false} KeysMembers(keys: Slots, s: string)
    ensures forall k :: k in KeysIn(keys, s) <==> Some(k) in keys && s + ":" <= k
    ensures NoRepeats(keys) ==> Distinct(KeysIn(keys, s))
  {
    if keys == [] {
    } else {
      KeysMembers(keys[1..], s);
      assert keys == [keys[0]] + keys[1..];
      if keys[0].Some? && Belongs(keys[0].value, s) {
        var tail := KeysIn(keys[1..], s);
        assert KeysIn(keys, s) == [keys[0].value] + tail;
        assert NoRepeats(keys) ==> keys[0] !in keys[1..];
      }
    }
  }

  /** Entries of all the listed sections together. */
  function KeyTotal(keys: Slots, names: seq<string>): nat {
    if names == [] then 0 else |KeysIn(keys, names[0])| + KeyTotal(keys, names[1..])
  }

  function Matches(k: string, names: seq<string>): nat {
    if names == [] then 0 else (if Belongs(k, names[0]) then 1 else 0) + Matches(k, names[1..])
  }

  lemma {:induction false} KeyTotalCons(k: Option<string>, keys: Slots, names: seq<string>)
    ensures KeyTotal([k] + keys, names) == KeyTotal(keys, names) + (if k.Some? then Matches(k.value, names) else 0)
  {
    if names == [] {
    } else {
      assert ([k] + keys)[1..] == keys;
      KeyTotalCons(k, keys, names[1..]);
    }
  }

  /** A key belongs to a section exactly when the section is its text before the first colon. */
  lemma BelongsIff(k: string, s: string)
    requires IsSectionName(s)
    ensures Belongs(k, s) <==> !IsSectionName(k) && SectionOf(k) == s
  {
    if !IsSectionName(k) {
      assert k[..IndexOf(k, ':') + 1] == SectionOf(k) + ":";
    }
    if Belongs(k, s) {
      assert forall i :: 0 <= i <= |s| ==> k[i] == (s + ":")[i];
      IndexOfUnique(k, ':', |s|);
    }
  }

  lemma {:induction false} MatchesOnce(k: string, names: seq<string>)
    requires Distinct(names)
    requires forall i :: 0 <= i < |names| ==> IsSectionName(names[i])
    ensures Matches(k, names) == if !IsSectionName(k) && SectionOf(k) in names then 1 else 0
  {
    if names == [] {
    } else {
      BelongsIff(k, names[0]);
      assert names == [names[0]] + names[1..];
      MatchesOnce(k, names[1..]);
    }
  }

  lemma {:induction false} NoKeys(names: seq<string>)
    ensures KeyTotal([], names) == 0
  {
    if names == [] {
    } else {
      NoKeys(names[1..]);
    }
  }

  /** Every entry under a listed section is counted under that section and no other. */
  lemma {:induction false} CountSplits(keys: Slots, names: seq<string>)
    requires Distinct(names)
    requires forall i :: 0 <= i < |names| ==> IsSectionName(names[i])
    requires forall i :: 0 <= i < |keys| && keys[i].Some? && !IsSectionName(keys[i].value) ==>
               SectionOf(keys[i].value) in names
    ensures CountUsed(keys) == |Sections(keys)| + KeyTotal(keys, names)
  {
    if keys == [] {
      NoKeys(names);
    } else {
      CountSplits(keys[1..], names);
      assert keys == [keys[0]] + keys[1..];
      KeyTotalCons(keys[0], keys[1..], names);
      if keys[0].Some? {
        MatchesOnce(keys[0].value, names);
      }
    }
  }

  /** Sections and the entries under them are never more than all keys. */
  lemma {:induction false} CountAtMost(keys: Slots, names: seq<string>)
    requires Distinct(names)
    requires forall i :: 0 <= i < |names| ==> IsSectionName(names[i])
    ensures |Sections(keys)| + KeyTotal(keys, names) <= CountUsed(keys)
  {
    if keys == [] {
      NoKeys(names);
    } else {
      CountAtMost(keys[1..], names);
      assert keys == [keys[0]] + keys[1..];
      KeyTotalCons(keys[0], keys[1..], names);
      if keys[0].Some? {
        MatchesOnce(keys[0].value, names);
      }
    }
  }

  /** iniparser_getsecnkeys over the sections in the order of iniparser_getsecname. */
  function SecNKeysTotal(m: Store, keys: Slots, names: seq<string>): nat {
    if names == [] then 0 else SecNKeys(m, keys, names[0]) + SecNKeysTotal(m, keys, names[1..])
  }

  lemma {:induction false} LowerTotals(m: Store, keys: Slots, names: seq<string>)
    requires forall s :: s in names ==> s in m && Lower(s) == s && |s| <= ASCIILINESZ
    ensures SecNKeysTotal(m, keys, names) == KeyTotal(keys, names)
  {
    if names == [] {
    } else {
      LowerTotals(m, keys, names[1..]);
    }
  }

  /** When every entry stands under a present section, and section names are lowercase and fit the
      buffer, `n` is the number of sections plus all the per-section key counts. */
  lemma CountsAddUp(keys: Slots, vals: Slots, hashes: seq<bv32>, m: Store)
    requires Table(keys, vals, hashes, m)
    requires forall k :: k in m && !IsSectionName(k) ==> SectionOf(k) in m
    requires forall k :: k in m && IsSectionName(k) ==> Lower(k) == k && |k| <= ASCIILINESZ
    ensures |m| == |Sections(keys)| + SecNKeysTotal(m, keys, Sections(keys))
  {
    var names := Sections(keys);
    SectionsAreTheColonFreeKeys(keys, vals, m);
    forall i | 0 <= i < |keys| && keys[i].Some? && !IsSectionName(keys[i].value)
      ensures SectionOf(keys[i].value) in names
    {
      var s := SectionOf(keys[i].value);
      assert forall j :: 0 <= j < |s| ==> s[j] != ':';
      IndexOfUnique(s, ':', |s|);
    }
    CountSplits(keys, names);
    LowerTotals(m, keys, names);
  }
}
