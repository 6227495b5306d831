/** The pools of an include directory: every file loaded and parsed, then all pools checked. */
module PoolSetup {
  import opened CBuffers
  import opened CText
  import opened ConfNumbers
  import opened Dictionary
  import opened IniAccess
  import opened IniIndex
  import opened IniLoad
  import opened IniLoader
  import opened PoolConfig
  import opened PoolParse
  import opened Pools

  // When a file, and a directory, is taken.

  /** The names in the list, letter case dropped. */
  ghost function NamesOf(cs: seq<Config>): set<string> {
    set i | 0 <= i < |cs| && cs[i].name.Some? :: Lower(cs[i].name.value)
  }

  ghost function SectionNames(m: Store): set<string> {
    set s | s in m && IsSectionName(s) :: Lower(s)
  }

  /** No section is called global or has a name in `names`, no two agree up to letter case, and every
      option that is present is acceptable. */
  ghost predicate FileTaken(m: Store, names: set<string>) {
    && (forall s :: s in m && IsSectionName(s) ==> s != "global" && Lower(s) !in names && Settles(m, s))
    && (forall s, t :: s in m && t in m && IsSectionName(s) && IsSectionName(t) && s != t ==> Lower(s) != Lower(t))
  }

  ghost predicate Loads(file: Option<string>) {
    file.Some? && LoadFile(file.value).Some?
  }

  ghost function Contents(file: Option<string>): Store
    requires Loads(file)
  {
    LoadFile(file.value).value
  }

  /** Every file loads and is taken, beside the names in `names` and those of the files before it. */
  ghost predicate DirectoryTaken(files: seq<Option<string>>, names: set<string>)
    decreases |files|
  {
    files == [] ||
    (Loads(files[0]) && FileTaken(Contents(files[0]), names) &&
     DirectoryTaken(files[1..], names + SectionNames(Contents(files[0]))))
  }

  /** The sections of a map, each once. */
  ghost predicate Enumerates(sections: seq<string>, m: Store) {
    Distinct(sections) && forall s :: s in sections <==> s in m && IsSectionName(s)
  }

  lemma TakenIff(cs: seq<Config>, name: string)
    ensures Taken(cs, name) <==> Lower(name) in NamesOf(cs)
  {
    hide Lower;
    if Lower(name) in NamesOf(cs) {
      var i :| 0 <= i < |cs| && cs[i].name.Some? && Lower(cs[i].name.value) == Lower(name);
      assert EqualIgnoringCase(cs[i].name.value, name);
    }
  }

  lemma Position(sections: seq<string>, s: string) returns (i: nat)
    requires s in sections
    ensures i < |sections| && sections[i] == s
  {
    i :| 0 <= i < |sections| && sections[i] == s;
  }

  /** The order in which the slots hold the sections does not matter. */
  lemma TakenWholeIff(m: Store, sections: seq<string>, cs: seq<Config>)
    requires Enumerates(sections, m)
    ensures TakenWhole(m, sections, |sections|, cs) <==> FileTaken(m, NamesOf(cs))
  {
    hide Lower, NamesOf, Taken, Settles, IsSectionName;
    forall i | 0 <= i < |sections|
      ensures sections[i] in m && IsSectionName(sections[i])
      ensures Taken(cs, sections[i]) <==> Lower(sections[i]) in NamesOf(cs)
    {
      assert sections[i] in sections;
      TakenIff(cs, sections[i]);
    }
    if TakenWhole(m, sections, |sections|, cs) {
      forall s, t | s in m && t in m && IsSectionName(s) && IsSectionName(t) && s != t
        ensures Lower(s) != Lower(t)
      {
        var i := Position(sections, s);
        var j := Position(sections, t);
        assert !EqualIgnoringCase(sections[if i < j then i else j], sections[if i < j then j else i]);
      }
      forall s | s in m && IsSectionName(s)
        ensures s != "global" && Lower(s) !in NamesOf(cs) && Settles(m, s)
      {
        var i := Position(sections, s);
      }
    }
  }

  /** The pools of the listed sections, the last section first. */
  function Added(m: Store, sections: seq<string>): (cs: seq<Config>)
    ensures |cs| == |sections|
  {
    if sections == [] then []
    else [PoolOf(m, sections[|sections| - 1]).0] + Added(m, sections[..|sections| - 1])
  }

  lemma {:induction false} BuiltIsAdded(m: Store, sections: seq<string>, count: nat, cs: seq<Config>)
    requires count <= |sections| && Built(m, sections, count, cs).1
    ensures Built(m, sections, count, cs).0 == cs + Added(m, sections[..count])
    decreases count
  {
    hide PoolOf, Taken;
    if count == 0 {
      assert sections[..0] == [];
    } else {
      assert sections[..count][..count - 1] == sections[..count - 1];
      BuiltIsAdded(m, sections, count - 1, cs + [PoolOf(m, sections[count - 1]).0]);
    }
  }

  lemma NamesAppend(a: seq<Config>, b: seq<Config>)
    ensures NamesOf(a + b) == NamesOf(a) + NamesOf(b)
  {
    hide Lower;
    forall x | x in NamesOf(a) + NamesOf(b)
      ensures x in NamesOf(a + b)
    {
      if x in NamesOf(a) {
        var i :| 0 <= i < |a| && a[i].name.Some? && Lower(a[i].name.value) == x;
        assert (a + b)[i] == a[i];
      } else {
        var i :| 0 <= i < |b| && b[i].name.Some? && Lower(b[i].name.value) == x;
        assert (a + b)[|a| + i] == b[i];
      }
    }
  }

  lemma NamesCons(c: Config, cs: seq<Config>)
    requires c.name.Some?
    ensures NamesOf([c] + cs) == {Lower(c.name.value)} + NamesOf(cs)
  {
    assert [c] == [c];
    NamesAppend([c], cs);
    assert NamesOf([c]) == {Lower(c.name.value)} by {
      assert [c][0].name.Some?;
    }
  }

  lemma {:induction false} AddedNames(m: Store, sections: seq<string>)
    ensures forall x :: x in NamesOf(Added(m, sections)) <==> exists i :: 0 <= i < |sections| && Lower(sections[i]) == x
    decreases |sections|
  {
    hide Lower, PoolOf;
    if sections == [] {
    } else {
      var front, s := sections[..|sections| - 1], sections[|sections| - 1];
      AddedNames(m, front);
      PoolSettings(m, s);
      NamesCons(PoolOf(m, s).0, Added(m, front));
      forall x
        ensures x in NamesOf(Added(m, sections)) <==> exists i :: 0 <= i < |sections| && Lower(sections[i]) == x
      {
        if x in NamesOf(Added(m, front)) {
          var i :| 0 <= i < |front| && Lower(front[i]) == x;
          assert Lower(sections[i]) == x;
        }
        if i :| 0 <= i < |sections| && Lower(sections[i]) == x {
          assert i < |front| ==> Lower(front[i]) == x;
        }
      }
    }
  }

  /** A file that is taken adds its section names. */
  lemma NamesAfter(m: Store, sections: seq<string>, cs: seq<Config>)
    requires Enumerates(sections, m)
    ensures NamesOf(cs + Added(m, sections)) == NamesOf(cs) + SectionNames(m)
  {
    hide Lower, NamesOf, IsSectionName;
    NamesAppend(cs, Added(m, sections));
    AddedNames(m, sections);
    forall x
      ensures x in NamesOf(Added(m, sections)) <==> x in SectionNames(m)
    {
      if x in NamesOf(Added(m, sections)) {
        var i :| 0 <= i < |sections| && Lower(sections[i]) == x;
        assert sections[i] in sections;
      }
      if x in SectionNames(m) {
        var s :| s in m && IsSectionName(s) && Lower(s) == x;
        var i := Position(sections, s);
        assert Lower(sections[i]) == x;
      }
    }
  }

  lemma LoadedSections(input: string, keys: Slots, vals: Slots, hashes: seq<bv32>, m: Store)
    requires LoadFile(input) == Some(m) && Table(keys, vals, hashes, m)
    ensures Enumerates(Sections(keys), m)
    ensures forall s :: s in Sections(keys) ==> Without(s, NUL)
  {
    hide LoadFile, Represents, Cached, CountUsed;
    LoadedKeysPlain(input, m);
    SectionsAreTheColonFreeKeys(keys, vals, m);
  }

  /** One file: taken exactly when it loads and `FileTaken` holds; `sections` are its sections. */
  method AddFile(file: Option<string>, reg: Registry) returns (ok: bool, ghost sections: seq<string>)
    requires reg.Valid()
    modifies reg, reg.list`next
    ensures reg.Valid() && old(reg.list) <= reg.list
    ensures forall i :: |old(reg.list)| <= i < |reg.list| ==> fresh(reg.list[i])
    ensures ok <==> Loads(file) && FileTaken(Contents(file), NamesOf(old(reg.Configs())))
    ensures WellNamed(old(reg.Configs())) ==> WellNamed(reg.Configs())
    ensures !Loads(file) ==> reg.Configs() == old(reg.Configs())
    ensures Loads(file) ==>
              && Enumerates(sections, Contents(file))
              && (reg.Configs(), ok) == Built(Contents(file), sections, |sections|, old(reg.Configs()))
    ensures ok ==> reg.Configs() == old(reg.Configs()) + Added(Contents(file), sections)
  {
    hide LoadFile, Built, WellNamed, Table, Linked, ConfigsOf, FileTaken, TakenWhole, Enumerates, NamesOf, Added;
    sections := [];
    var ini := Load(file);
    if ini == null {
      return false, [];
    }
    ghost var cs, m := reg.Configs(), ini.contents;
    sections := Sections(ini.key[..]);
    LoadedSections(file.value, ini.key[..], ini.val[..], ini.hash[..], m);
    if WellNamed(cs) {
      BuiltKeepsNames(m, sections, |sections|, cs);
    }
    BuiltIff(m, sections, |sections|, cs);
    TakenWholeIff(m, sections, cs);
    if Built(m, sections, |sections|, cs).1 {
      BuiltIsAdded(m, sections, |sections|, cs);
      assert sections[..|sections|] == sections;
    }
    ok := ParsePoolIni(ini, reg);
  }

  // A directory.

  /** The files that were loaded, with their sections in slot order. */
  type LoadedFiles = seq<(Store, seq<string>)>

  ghost predicate LoadedFrom(loaded: LoadedFiles, files: seq<Option<string>>) {
    && |loaded| <= |files|
    && forall i :: 0 <= i < |loaded| ==>
         Loads(files[i]) && loaded[i].0 == Contents(files[i]) && Enumerates(loaded[i].1, loaded[i].0)
  }

  /** The pools of all the loaded files, file after file. */
  function AddedAll(loaded: LoadedFiles): seq<Config> {
    if loaded == [] then []
    else AddedAll(loaded[..|loaded| - 1]) + Added(loaded[|loaded| - 1].0, loaded[|loaded| - 1].1)
  }

  /** The files loaded so far were all taken, and led from one list to the other. */
  ghost predicate AllBuilt(loaded: LoadedFiles, cs: seq<Config>, ds: seq<Config>)
    decreases |loaded|
  {
    if loaded == [] then cs == ds
    else
      var next := Built(loaded[0].0, loaded[0].1, |loaded[0].1|, cs);
      next.1 && AllBuilt(loaded[1..], next.0, ds)
  }

  /** One more file behind those. */
  lemma {:induction false} OneMoreFile(loaded: LoadedFiles, cs: seq<Config>, ds: seq<Config>,
                                      file: (Store, seq<string>))
    requires AllBuilt(loaded, cs, ds)
    ensures var (es, ok) := Built(file.0, file.1, |file.1|, ds);
            BuiltAll(loaded + [file], cs) == es && (ok ==> AllBuilt(loaded + [file], cs, es))
    decreases |loaded|
  {
    hide Built;
    if loaded == [] {
      assert loaded + [file] == [file] && [file][1..] == [];
    } else {
      assert (loaded + [file])[1..] == loaded[1..] + [file];
      var next := Built(loaded[0].0, loaded[0].1, |loaded[0].1|, cs);
      OneMoreFile(loaded[1..], next.0, ds, file);
    }
  }

  lemma {:induction false} BuiltTogether(loaded: LoadedFiles, cs: seq<Config>, ds: seq<Config>)
    requires AllBuilt(loaded, cs, ds)
    ensures BuiltAll(loaded, cs) == ds
    decreases |loaded|
  {
    hide Built;
    if loaded == [] {
    } else {
      BuiltTogether(loaded[1..], Built(loaded[0].0, loaded[0].1, |loaded[0].1|, cs).0, ds);
    }
  }

  /** pmf_conf_parse_pool_config over the files of the directory: it succeeds exactly when the whole
      directory is taken, and then the list has grown by the pools of all sections of all files. */
  method ParsePoolConfig(files: seq<Option<string>>, reg: Registry) returns (ret: int, ghost loaded: LoadedFiles)
    requires reg.Valid()
    modifies reg, reg.list`next
    ensures reg.Valid() && old(reg.list) <= reg.list
    ensures forall i :: |old(reg.list)| <= i < |reg.list| ==> fresh(reg.list[i])
    ensures WellNamed(old(reg.Configs())) ==> WellNamed(reg.Configs())
    ensures ret == if DirectoryTaken(files, NamesOf(old(reg.Configs()))) then 0 else -1
    ensures LoadedFrom(loaded, files) && reg.Configs() == BuiltAll(loaded, old(reg.Configs()))
    ensures ret == 0 ==> |loaded| == |files| && reg.Configs() == old(reg.Configs()) + AddedAll(loaded)
  {
    hide Loads, Contents, FileTaken, Enumerates, NamesOf, SectionNames;
    hide WellNamed, Linked, ConfigsOf, Built, Added, BuiltAll;
    loaded := [];
    ghost var cs := reg.Configs();
    var i := 0;
    assert files[0..] == files && cs + [] == cs;
    while i < |files|
      invariant 0 <= i == |loaded| <= |files| && LoadedFrom(loaded, files)
      invariant reg.Valid() && old(reg.list) <= reg.list
      invariant forall j :: |old(reg.list)| <= j < |reg.list| ==> fresh(reg.list[j])
      invariant WellNamed(cs) ==> WellNamed(reg.Configs())
      invariant AllBuilt(loaded, cs, reg.Configs()) && reg.Configs() == cs + AddedAll(loaded)
      invariant DirectoryTaken(files, NamesOf(cs)) <==> DirectoryTaken(files[i..], NamesOf(reg.Configs()))
    {
      ghost var before := reg.Configs();
      assert files[i..][0] == files[i] && files[i..][1..] == files[i + 1..];
      var ok, sections := AddFile(files[i], reg);
      if !ok {
        if Loads(files[i]) {
          ghost var file := (Contents(files[i]), sections);
          OneMoreFile(loaded, cs, before, file);
          loaded := loaded + [file];
        } else {
          BuiltTogether(loaded, cs, before);
        }
        return -1, loaded;
      }
      ghost var file := (Contents(files[i]), sections);
      OneMoreFile(loaded, cs, before, file);
      NamesAfter(file.0, sections, before);
      assert (loaded + [file])[..|loaded|] == loaded;
      assert before + Added(file.0, sections) == cs + (AddedAll(loaded) + Added(file.0, sections));
      loaded := loaded + [file];
      i := i + 1;
    }
    BuiltTogether(loaded, cs, reg.Configs());
    return 0, loaded;
  }

  /** Checking keeps every name. */
  lemma CheckedKeepsNames(cs: seq<Config>, edge: bool)
    requires WellNamed(cs)
    ensures WellNamed(CheckedAll(cs, edge).1)
  {
    hide Checked, Runnable;
    PassOverList(cs, edge);
    var (n, ds) := CheckedAll(cs, edge);
    forall i | 0 <= i < |cs|
      ensures ds[i].name == cs[i].name
    {
      if i < n {
        CheckedIsRunnable(cs[i], edge);
      } else {
        assert ds[n..][i - n] == cs[n..][i - n];
      }
    }
  }

  /** A pass gets to the end exactly when every pool is accepted. */
  lemma PassesIff(cs: seq<Config>, edge: bool)
    ensures CheckedAll(cs, edge).0 == |cs| <==> forall i :: 0 <= i < |cs| ==> Checked(cs[i], edge).Some?
  {
    hide Checked, CheckedAll, Runnable;
    PassOverList(cs, edge);
  }

  /** From a directory to the checked list. It succeeds exactly when the directory is taken, there is a
      pool, and every pool, old or from a file, is accepted; then the list holds all of them, checked,
      and every one may run. However it ends, no two names agree up to letter case. */
  method SetUpPools(files: seq<Option<string>>, edge: bool, reg: Registry)
      returns (ret: int, ghost loaded: LoadedFiles)
    requires reg.Valid() && WellNamed(reg.Configs())
    modifies reg, reg.list
    ensures reg.Valid() && WellNamed(reg.Configs()) && LoadedFrom(loaded, files)
    ensures var pools := old(reg.Configs()) + AddedAll(loaded);
            ret == if DirectoryTaken(files, NamesOf(old(reg.Configs()))) && pools != []
                      && forall i :: 0 <= i < |pools| ==> Checked(pools[i], edge).Some? then 0 else -1
    ensures ret == 0 ==> |loaded| == |files|
    ensures var pools := old(reg.Configs()) + AddedAll(loaded);
            ret == 0 ==>
              && |reg.list| == |pools|
              && forall i :: 0 <= i < |pools| ==>
                   Checked(pools[i], edge) == Some(reg.list[i].config) && FilledIn(pools[i], reg.list[i].config)
    ensures ret == 0 ==> reg.list != [] && forall i :: 0 <= i < |reg.list| ==>
              Runnable(reg.list[i].config, edge) && DomainSet(reg.list[i])
  {
    hide LoadFile, Linked, Checked, CheckedAll, Runnable, FilledIn, DomainSet, ConfigsOf, WellNamed;
    hide DirectoryTaken, LoadedFrom, NamesOf, AddedAll, BuiltAll;
    ret, loaded := ParsePoolConfig(files, reg);
    if ret < 0 {
      return -1, loaded;
    }
    ghost var cs := reg.Configs();
    CheckedKeepsNames(cs, edge);
    PassOverList(cs, edge);
    PassesIff(cs, edge);
    forall i | 0 <= i < |cs| && Checked(cs[i], edge).Some?
      ensures FilledIn(cs[i], Checked(cs[i], edge).value)
    {
      CheckedFillsIn(cs[i], edge);
    }
    ghost var done;
    ret, done := reg.ProcessAllPools(edge);
    assert forall i :: 0 <= i < |reg.list| ==> reg.Configs()[i] == reg.list[i].config;
  }
}
