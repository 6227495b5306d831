/** Printing a dictionary that has no sections, and loading the text again. */
module IniBare {
  import opened CText
  import opened Dictionary
  import opened IniLine
  import opened IniLoad
  import opened IniIndex
  import opened IniDump
  import opened IniEntryLine

  /** The text of a NULL value as it is printed here. */
  function BareValue(v: Option<string>): string {
    ValueOr(v, "(null)")
  }

  /** A printable key and a one-line value on a line that fits and is not continued. */
  ghost predicate BareReadable(k: string, v: string) {
    PrintableKey(k) && OneLine(v) && |k| + |v| + 4 < ASCIILINESZ && !EndsWith(Strip(v), '\\')
  }

  lemma BareLineIs(k: string, v: Option<string>)
    ensures BareLine(k, v) == k + " = " + BareValue(v) + "\n"
  {
  }

  lemma KeyAndGap(k: string)
    requires PrintableKey(k)
    ensures OneLine(k) && Blank(" ") && Without(" ", '=')
  {
  }

  lemma OneLineSum(k: string, v: string)
    requires OneLine(k) && OneLine(v)
    ensures OneLine(k + " = " + v)
  {
  }

  lemma RunBareLine(st: Loader, k: string, v: string, rest: string)
    requires st.acc == "" && BareReadable(k, v)
    ensures Run(st, k + " = " + v + "\n" + rest) ==
            Run(st.(store := st.store[st.section + ":" + k := Some(ReadBack(v))]), rest)
  {
    hide Run, Process, EntryValue, Strip, LTrim, RTrim, PrintableKey;
    var text, tail, head := k + " = " + v, RTrim(" " + v), (k + " ") + "=";
    assert text == head + (" " + v);
    RTrimBehind(head, " " + v);
    var _ := RTrimSplits(" " + v);
    TailOfValue(v);
    KeyAndGap(k);
    PairProcess(st, k, " ", tail);
    LastOfSum(head, tail);
    OneLineSum(k, v);
    RunLine(st, text, rest);
  }

  /** The store after the bare lines, read into the section with the empty name. */
  function StoreBare(store: Store, keys: Slots, vals: Slots): Store
    requires |keys| == |vals|
    decreases |keys|
  {
    if keys == [] then store
    else
      var next := if keys[0].Some? then store[":" + keys[0].value := Some(ReadBack(BareValue(vals[0])))] else store;
      StoreBare(next, keys[1..], vals[1..])
  }

  lemma {:induction false} RunBare(st: Loader, keys: Slots, vals: Slots)
    requires |keys| == |vals| && st.acc == "" && st.section == ""
    requires forall i :: 0 <= i < |keys| && keys[i].Some? ==> BareReadable(keys[i].value, BareValue(vals[i]))
    ensures Run(st, BareLines(keys, vals)) == Some(st.(store := StoreBare(st.store, keys, vals)))
    decreases |keys|
  {
    hide Run, BareReadable, BareValue, BareLine, ReadBack;
    if keys == [] {
      RunEmpty(st);
    } else if keys[0].Some? {
      var k, v := keys[0].value, BareValue(vals[0]);
      BareLineIs(k, vals[0]);
      RunBareLine(st, k, v, BareLines(keys[1..], vals[1..]));
      assert "" + ":" + k == ":" + k;
      RunBare(st.(store := st.store[":" + k := Some(ReadBack(v))]), keys[1..], vals[1..]);
    } else {
      assert "" + BareLines(keys[1..], vals[1..]) == BareLines(keys[1..], vals[1..]);
      RunBare(st, keys[1..], vals[1..]);
    }
  }

  lemma {:induction false} StoreBareHolds(store: Store, keys: Slots, vals: Slots, m: Store, q: string)
    requires |keys| == |vals|
    requires forall i :: 0 <= i < |keys| && keys[i].Some? ==> keys[i].value in m && m[keys[i].value] == vals[i]
    ensures var r := StoreBare(store, keys, vals);
            && (q in r <==> q in store || (q != "" && q[0] == ':' && Some(q[1..]) in keys))
            && (q in r && q != "" && q[0] == ':' && Some(q[1..]) in keys ==>
                  r[q] == Some(ReadBack(BareValue(m[q[1..]]))))
            && (q in r && !(q != "" && q[0] == ':' && Some(q[1..]) in keys) ==> r[q] == store[q])
    decreases |keys|
  {
    hide BareValue, ReadBack;
    if keys == [] {
    } else {
      assert keys == [keys[0]] + keys[1..];
      var next := if keys[0].Some? then store[":" + keys[0].value := Some(ReadBack(BareValue(vals[0])))] else store;
      assert keys[0].Some? ==> (":" + keys[0].value)[1..] == keys[0].value;
      assert q != "" && q[0] == ':' ==> q == ":" + q[1..];
      StoreBareHolds(next, keys[1..], vals[1..], m, q);
    }
  }

  /** A dictionary without sections is printed entry by entry, and the reload puts every entry under
      the section with the empty name: a colon is added to each key, and a NULL value has become text. */
  lemma BareThenLoad(keys: Slots, vals: Slots, m: Store, q: string)
    requires Represents(keys, vals, m) && Sections(keys) == []
    requires forall k :: k in m ==> BareReadable(k, BareValue(m[k]))
    ensures var r := LoadFile(DumpText(keys, vals, m));
            && r.Some?
            && (q in r.value <==> q != "" && q[0] == ':' && q[1..] in m)
            && (q in r.value ==> r.value[q] == Some(ReadBack(BareValue(m[q[1..]]))))
  {
    hide Run, BareReadable, BareValue, ReadBack, BareLines, Sections;
    RunBare(INIT, keys, vals);
    StoreBareHolds(map[], keys, vals, m, q);
    if q != "" {
      assert q[1..] in m ==> exists i :: 0 <= i < |keys| && keys[i] == Some(q[1..]);
    }
  }

  lemma {:induction false} Longest(m: Store) returns (q: string)
    requires m != map[]
    ensures q in m && forall k :: k in m ==> |k| <= |q|
    decreases |m|
  {
    var k :| k in m;
    var less := m - {k};
    if less == map[] {
      q := k;
      assert forall x :: x in m ==> x == k || x in less;
    } else {
      assert less.Keys == m.Keys - {k};
      assert |less.Keys| < |m.Keys|;
      var p := Longest(less);
      q := if |p| < |k| then k else p;
      assert forall x :: x in m ==> x == k || x in less;
    }
  }

  /** So it never comes back unchanged, unless it is empty. */
  lemma BareNeverReturns(keys: Slots, vals: Slots, m: Store)
    requires Represents(keys, vals, m) && Sections(keys) == []
    requires forall k :: k in m ==> BareReadable(k, BareValue(m[k]))
    ensures LoadFile(DumpText(keys, vals, m)) == Some(m) <==> m == map[]
  {
    assert |keys| == |vals|;
    hide LoadFile, DumpText, BareReadable, BareValue, ReadBack, Represents, Sections;
    var r := LoadFile(DumpText(keys, vals, m));
    if m == map[] {
      forall q
        ensures r.Some? && q !in r.value
      {
        BareThenLoad(keys, vals, m, q);
      }
      BareThenLoad(keys, vals, m, "");
      assert r.value == map[];
    } else {
      var q := Longest(m);
      BareThenLoad(keys, vals, m, ":" + q);
      assert (":" + q)[1..] == q;
    }
  }
}
