/** From a loaded ini dictionary to the pool list. */
module PoolParse {
  import opened CText
  import opened CBuffers
  import opened Dictionary
  import opened IniAccess
  import opened IniIndex
  import opened PoolName
  import opened ConfNumbers
  import opened PoolConfig
  import opened Pools

  /** The rows of pmf_ini_pool_option. */
  datatype Setting =
    | User | Group | Listen | Backlog | Priority | Dumpable | Pm | MaxChildren | StartServers
    | MinSpare | MaxSpare | IdleTimeout | MaxRequests

  function Rows(): seq<Setting> {
    [User, Group, Listen, Backlog, Priority, Dumpable, Pm, MaxChildren, StartServers,
     MinSpare, MaxSpare, IdleTimeout, MaxRequests]
  }

  function KeyName(o: Setting): string {
    match o
    case User => "user"
    case Group => "group"
    case Listen => "listen"
    case Backlog => "listen_backlog"
    case Priority => "process_priority"
    case Dumpable => "process.dumpable"
    case Pm => "pm"
    case MaxChildren => "pm.max_children"
    case StartServers => "pm.start_servers"
    case MinSpare => "pm.min_spare_servers"
    case MaxSpare => "pm.max_spare_servers"
    case IdleTimeout => "pm.process_idle_timeout"
    case MaxRequests => "pm.max_requests"
  }

  predicate IsText(o: Setting) {
    o.User? || o.Group? || o.Listen?
  }

  function WithText(c: Config, o: Setting, text: string): Config {
    match o
    case User => c.(user := Some(text))
    case Group => c.(group := Some(text))
    case Listen => c.(listen := Some(text))
    case _ => c
  }

  function WithNumber(c: Config, o: Setting, v: int): Config {
    match o
    case Backlog => c.(backlog := v)
    case Priority => c.(priority := v)
    case Dumpable => c.(dumpable := v)
    case Pm => c.(pmType := v)
    case MaxChildren => c.(maxChildren := v)
    case StartServers => c.(startServers := v)
    case MinSpare => c.(minSpare := v)
    case MaxSpare => c.(maxSpare := v)
    case IdleTimeout => c.(idleTimeout := v)
    case MaxRequests => c.(maxRequests := v)
    case _ => c
  }

  /** pmf_conf_set_pm */
  function PmStyle(value: string): Option<int> {
    if EqualIgnoringCase(value, "static") then Some(STATIC)
    else if EqualIgnoringCase(value, "dynamic") then Some(DYNAMIC)
    else if EqualIgnoringCase(value, "ondemand") then Some(ONDEMAND)
    else None
  }

  /** The setter of a row applied to a value; None when it returns an error. */
  function WithValue(c: Config, o: Setting, value: string): Option<Config> {
    if IsText(o) then Some(WithText(c, o, Expanded(value)))
    else if o.Pm? then (if PmStyle(value).None? then None else Some(WithNumber(c, o, PmStyle(value).value)))
    else if IsNumeral(value) then Some(WithNumber(c, o, Atoi(value)))
    else None
  }

  /** snprintf(real_key, MAX_KEY_VALUE_LEN, "%s:%s", section, key) */
  function RealKey(section: string, o: Setting): string {
    Take(section + ":" + KeyName(o), MAX_KEY_VALUE_LEN - 1)
  }

  /** The value a row reads in a section. */
  function ValueOf(m: Store, section: string, o: Setting): Pointer {
    Lookup(m, Fold(RealKey(section, o)), Null)
  }

  /** The option loop from row `i` on: the settings made, and whether all rows parsed. */
  function Loaded(m: Store, section: string, c: Config, i: nat): (Config, bool)
    requires i <= |Rows()|
    decreases |Rows()| - i
  {
    if i == |Rows()| then (c, true)
    else
      var value := ValueOf(m, section, Rows()[i]);
      if !value.Text? then Loaded(m, section, c, i + 1)
      else
        var next := WithValue(c, Rows()[i], value.text);
        if next.None? then (c, false) else Loaded(m, section, next.value, i + 1)
  }

  // What the option loop does to each field.

  datatype FieldValue = TextField(text: Option<string>) | NumberField(v: int)

  /** The field a row sets. */
  function Field(c: Config, o: Setting): FieldValue {
    match o
    case User => TextField(c.user)
    case Group => TextField(c.group)
    case Listen => TextField(c.listen)
    case Backlog => NumberField(c.backlog)
    case Priority => NumberField(c.priority)
    case Dumpable => NumberField(c.dumpable)
    case Pm => NumberField(c.pmType)
    case MaxChildren => NumberField(c.maxChildren)
    case StartServers => NumberField(c.startServers)
    case MinSpare => NumberField(c.minSpare)
    case MaxSpare => NumberField(c.maxSpare)
    case IdleTimeout => NumberField(c.idleTimeout)
    case MaxRequests => NumberField(c.maxRequests)
  }

  /** A row accepts any text, one of three words, or a numeral. */
  predicate Acceptable(o: Setting, value: string) {
    if IsText(o) then true
    else if o.Pm? then
      EqualIgnoringCase(value, "static") || EqualIgnoringCase(value, "dynamic") || EqualIgnoringCase(value, "ondemand")
    else IsNumeral(value)
  }

  /** What it makes of an acceptable value. */
  function Meaning(o: Setting, value: string): FieldValue {
    if IsText(o) then TextField(Some(Expanded(value)))
    else if o.Pm? then
      NumberField(if EqualIgnoringCase(value, "static") then STATIC
                  else if EqualIgnoringCase(value, "dynamic") then DYNAMIC else ONDEMAND)
    else NumberField(Atoi(value))
  }

  ghost predicate Refused(m: Store, section: string, o: Setting) {
    ValueOf(m, section, o).Text? && !Acceptable(o, ValueOf(m, section, o).text)
  }

  /** Every option of the section that is present is acceptable. */
  ghost predicate Settles(m: Store, section: string) {
    forall j :: 0 <= j < |Rows()| ==> !Refused(m, section, Rows()[j])
  }

  /** A setter succeeds exactly on acceptable values; it sets its own field and no other. */
  lemma ParsedSetsOne(c: Config, o: Setting, value: string, other: Setting)
    ensures WithValue(c, o, value).Some? <==> Acceptable(o, value)
    ensures Acceptable(o, value) ==>
              && WithValue(c, o, value).value.name == c.name
              && Field(WithValue(c, o, value).value, other) == if other == o then Meaning(o, value) else Field(c, other)
  {
    hide Expanded, Atoi, EqualIgnoringCase, IsNumeral;
  }

  /** The first row from `i` on whose value is refused, or the end of the table. */
  ghost function FirstRefused(m: Store, section: string, i: nat): nat
    requires i <= |Rows()|
    decreases |Rows()| - i
  {
    if i == |Rows()| || Refused(m, section, Rows()[i]) then i else FirstRefused(m, section, i + 1)
  }

  lemma {:induction false} FirstRefusedIsFirst(m: Store, section: string, i: nat)
    requires i <= |Rows()|
    ensures var n := FirstRefused(m, section, i);
            && i <= n <= |Rows()|
            && (forall j :: i <= j < n ==> !Refused(m, section, Rows()[j]))
            && (n < |Rows()| ==> Refused(m, section, Rows()[n]))
    decreases |Rows()| - i
  {
    hide Refused, Rows;
    if i == |Rows()| {
    } else {
      FirstRefusedIsFirst(m, section, i + 1);
    }
  }

  lemma RowsDiffer(i: nat, j: nat)
    requires i < |Rows()| && j < |Rows()|
    ensures Rows()[i] == Rows()[j] <==> i == j
  {
  }

  /** All rows parse exactly when none is refused; the name is kept. */
  lemma {:induction false} LoadedIff(m: Store, section: string, c: Config, i: nat)
    requires i <= |Rows()|
    ensures Loaded(m, section, c, i).1 <==> FirstRefused(m, section, i) == |Rows()|
    ensures Loaded(m, section, c, i).0.name == c.name
    decreases |Rows()| - i
  {
    hide WithValue, Acceptable, RealKey, Lookup, Fold, Rows;
    if i == |Rows()| {
    } else {
      var o := Rows()[i];
      FirstRefusedIsFirst(m, section, i);
      var value := ValueOf(m, section, o);
      if value.Text? {
        ParsedSetsOne(c, o, value.text, o);
        if Acceptable(o, value.text) {
          LoadedIff(m, section, WithValue(c, o, value.text).value, i + 1);
        }
      } else {
        LoadedIff(m, section, c, i + 1);
      }
    }
  }

  /** Every row before the first refused one sets its own field and no other. */
  lemma {:induction false} LoadedFields(m: Store, section: string, c: Config, i: nat, j: nat)
    requires i <= |Rows()| && j < |Rows()|
    ensures Field(Loaded(m, section, c, i).0, Rows()[j]) ==
            if i <= j < FirstRefused(m, section, i) && ValueOf(m, section, Rows()[j]).Text?
            then Meaning(Rows()[j], ValueOf(m, section, Rows()[j]).text)
            else Field(c, Rows()[j])
    decreases |Rows()| - i
  {
    hide WithValue, Acceptable, Meaning, Field, RealKey, Lookup, Fold, Rows;
    if i == |Rows()| {
    } else {
      var o := Rows()[i];
      RowsDiffer(i, j);
      FirstRefusedIsFirst(m, section, i);
      var value := ValueOf(m, section, o);
      if !value.Text? {
        LoadedFields(m, section, c, i + 1, j);
      } else {
        ParsedSetsOne(c, o, value.text, Rows()[j]);
        if Acceptable(o, value.text) {
          LoadedFields(m, section, WithValue(c, o, value.text).value, i + 1, j);
        }
      }
    }
  }

  /** A pool of that name, up to letter case, is in the list already. */
  predicate Taken(cs: seq<Config>, name: string) {
    exists i :: 0 <= i < |cs| && cs[i].name.Some? && EqualIgnoringCase(cs[i].name.value, name)
  }

  function PoolOf(m: Store, section: string): (Config, bool) {
    Loaded(m, section, DEFAULTS.(name := Some(section)), 0)
  }

  lemma SameDefaults(section: string, o: Setting)
    ensures Field(DEFAULTS.(name := Some(section)), o) == Field(DEFAULTS, o)
  {
  }

  /** The settings of a pool: what each row up to the first refused one makes of its value, and the
      defaults where there is none. All rows parse exactly when the section settles. */
  lemma PoolSettings(m: Store, section: string)
    ensures PoolOf(m, section).1 <==> Settles(m, section)
    ensures PoolOf(m, section).0.name == Some(section)
    ensures forall j :: 0 <= j < |Rows()| ==>
              Field(PoolOf(m, section).0, Rows()[j]) ==
              if j < FirstRefused(m, section, 0) && ValueOf(m, section, Rows()[j]).Text?
              then Meaning(Rows()[j], ValueOf(m, section, Rows()[j]).text)
              else Field(DEFAULTS, Rows()[j])
  {
    hide Loaded, Field, Meaning, Acceptable, ValueOf, Rows;
    var c := DEFAULTS.(name := Some(section));
    LoadedIff(m, section, c, 0);
    FirstRefusedIsFirst(m, section, 0);
    forall j | 0 <= j < |Rows()|
      ensures Field(PoolOf(m, section).0, Rows()[j]) ==
              if j < FirstRefused(m, section, 0) && ValueOf(m, section, Rows()[j]).Text?
              then Meaning(Rows()[j], ValueOf(m, section, Rows()[j]).text)
              else Field(DEFAULTS, Rows()[j])
    {
      LoadedFields(m, section, c, 0, j);
      SameDefaults(section, Rows()[j]);
    }
  }

  /** One turn of the section loop. */
  function WithSection(m: Store, name: string, cs: seq<Config>): (seq<Config>, bool) {
    if name == "global" || Taken(cs, name) then (cs, false)
    else
      var (c, ok) := PoolOf(m, name);
      (cs + [c], ok)
  }

  /** The section loop, which counts down; the list afterwards and whether it got to the end. */
  function Built(m: Store, sections: seq<string>, count: nat, cs: seq<Config>): (seq<Config>, bool)
    requires count <= |sections|
  {
    if count == 0 then (cs, true)
    else
      var (ds, ok) := WithSection(m, sections[count - 1], cs);
      if ok then Built(m, sections, count - 1, ds) else (ds, false)
  }

  // The running parser.

  /** One call through the parser column of the table. */
  method RunSetter(wp: WorkerPool, o: Setting, value: string) returns (ok: bool)
    modifies wp`config
    ensures ok <==> WithValue(old(wp.config), o, value).Some?
    ensures wp.config == if ok then WithValue(old(wp.config), o, value).value else old(wp.config)
  {
    hide Expanded, Atoi, EqualIgnoringCase;
    if IsText(o) {
      var slot := new StringSlot(None);
      var _ := SetString(value, slot);
      wp.config := WithText(wp.config, o, slot.text.value);
      return true;
    }
    if o.Pm? {
      if PmStyle(value).None? {
        return false;
      }
      wp.config := WithNumber(wp.config, o, PmStyle(value).value);
      return true;
    }
    var field := new IntField(0);
    var error := SetInteger(value, field);
    if error.Some? {
      return false;
    }
    wp.config := WithNumber(wp.config, o, field.v);
    return true;
  }

  lemma KeyNamePlain(o: Setting)
    ensures Without(KeyName(o), NUL)
  {
    assert NUL !in KeyName(o);
  }

  lemma RealKeyPlain(section: string, o: Setting)
    requires Without(section, NUL)
    ensures Without(RealKey(section, o), NUL)
  {
    hide KeyName;
    KeyNamePlain(o);
  }

  /** The option loop for one pool. */
  method LoadOptions(ini: Dict, section: string, wp: WorkerPool) returns (ok: bool)
    requires ini.Valid() && Without(section, NUL)
    modifies wp`config
    ensures (wp.config, ok) == Loaded(ini.contents, section, old(wp.config), 0)
  {
    hide Dict.Valid, WithValue, Fold, RealKey, Rows;
    ok := true;
    var index := 0;
    while index < |Rows()|
      invariant 0 <= index <= |Rows()|
      invariant Loaded(ini.contents, section, wp.config, index) == Loaded(ini.contents, section, old(wp.config), 0)
      invariant ini.Valid()
    {
      RealKeyPlain(section, Rows()[index]);
      var value := GetString(ini, Some(RealKey(section, Rows()[index])), Null);
      if value.Text? {
        ok := RunSetter(wp, Rows()[index], value.text);
        if !ok {
          return;
        }
      }
      index := index + 1;
    }
  }

  /** The walk over the list for a pool of the same name. */
  method FindPool(reg: Registry, name: string) returns (found: bool)
    requires reg.Valid()
    ensures found <==> Taken(reg.Configs(), name)
  {
    hide Linked, ConfigsOf;
    HeadOfList(reg.all, reg.list);
    var wp := reg.all;
    ghost var i := 0;
    while wp != null
      invariant 0 <= i <= |reg.list|
      invariant wp == if i < |reg.list| then reg.list[i] else null
      invariant forall j :: 0 <= j < i ==>
                  !(reg.list[j].config.name.Some? && EqualIgnoringCase(reg.list[j].config.name.value, name))
      decreases |reg.list| - i
    {
      NextInList(reg.all, reg.list, i);
      if wp.config.name.Some? && EqualIgnoringCase(wp.config.name.value, name) {
        assert reg.Configs()[i] == wp.config;
        return true;
      }
      wp := wp.next;
      i := i + 1;
    }
    return false;
  }

  /** A new pool for one section, left in the list even when one of its options is refused. */
  method AddPool(ini: Dict, reg: Registry, name: string) returns (ok: bool)
    requires ini.Valid() && Without(name, NUL) && reg.Valid()
    modifies reg, reg.list`next
    ensures reg.Valid() && |reg.list| == |old(reg.list)| + 1 && old(reg.list) <= reg.list
    ensures fresh(reg.list[|old(reg.list)|])
    ensures (reg.Configs(), ok) == (old(reg.Configs()) + [PoolOf(ini.contents, name).0], PoolOf(ini.contents, name).1)
  {
    hide Linked, ConfigsOf, Loaded, Table, Represents, Cached, CountUsed;
    var wp := reg.ConfigAlloc();
    ghost var before := reg.Configs();
    wp.config := wp.config.(name := Some(name));
    ok := LoadOptions(ini, name, wp);
    NextInList(reg.all, reg.list, |reg.list| - 1);
    assert reg.Configs() == before[|before| - 1 := wp.config];
    assert before[|before| - 1 := wp.config] == old(reg.Configs()) + [wp.config];
  }

  /** One turn of the section loop: false is the -1 exit. */
  method AddSection(ini: Dict, reg: Registry, name: string) returns (ok: bool)
    requires ini.Valid() && Without(name, NUL) && reg.Valid()
    modifies reg, reg.list`next
    ensures reg.Valid() && old(reg.list) <= reg.list
    ensures forall i :: |old(reg.list)| <= i < |reg.list| ==> fresh(reg.list[i])
    ensures (reg.Configs(), ok) == WithSection(ini.contents, name, old(reg.Configs()))
  {
    hide Dict.Valid, Linked, ConfigsOf, PoolOf, Taken;
    if name == "global" {
      return false;
    }
    var found := FindPool(reg, name);
    if found {
      return false;
    }
    ok := AddPool(ini, reg, name);
  }

  /** pmf_conf_parse_pool_ini: falling off the end is the success exit. */
  method ParsePoolIni(ini: Dict?, reg: Registry) returns (ok: bool)
    requires ini != null ==> ini.Valid()
    requires ini != null ==> forall s :: s in Sections(ini.key[..]) ==> Without(s, NUL)
    requires reg.Valid()
    modifies reg, reg.list`next
    ensures reg.Valid() && old(reg.list) <= reg.list
    ensures forall i :: |old(reg.list)| <= i < |reg.list| ==> fresh(reg.list[i])
    ensures ini == null ==> !ok && reg.Configs() == old(reg.Configs())
    ensures ini != null ==>
              (reg.Configs(), ok) ==
              Built(ini.contents, Sections(ini.key[..]), |Sections(ini.key[..])|, old(reg.Configs()))
  {
    hide Linked, ConfigsOf, WithSection, Sections, Table, Represents, Cached, CountUsed;
    var count := GetNSec(ini);
    if count == -1 {
      return false;
    }
    ghost var names := Sections(ini.key[..]);
    while count > 0
      invariant 0 <= count <= |names| && reg.Valid()
      invariant old(reg.list) <= reg.list
      invariant forall i :: |old(reg.list)| <= i < |reg.list| ==> fresh(reg.list[i])
      invariant Built(ini.contents, names, count, reg.Configs()) ==
                Built(ini.contents, names, |names|, old(reg.Configs()))
    {
      var name := GetSecName(ini, count - 1);
      assert name.value in names;
      ok := AddSection(ini, reg, name.value);
      if !ok {
        return;
      }
      count := count - 1;
    }
    return true;
  }

  // What the list looks like afterwards.

  /** Every pool has a name, none is called global, and no two names agree up to letter case. */
  ghost predicate WellNamed(cs: seq<Config>) {
    && (forall i :: 0 <= i < |cs| ==> cs[i].name.Some? && cs[i].name.value != "global")
    && (forall i, j :: 0 <= i < j < |cs| ==> !EqualIgnoringCase(cs[i].name.value, cs[j].name.value))
  }

  lemma WellNamedSnoc(cs: seq<Config>, c: Config)
    requires WellNamed(cs) && c.name.Some? && c.name.value != "global" && !Taken(cs, c.name.value)
    ensures WellNamed(cs + [c])
  {
    hide EqualIgnoringCase;
  }

  /** No run over a file breaks the naming rule, however it ends. */
  lemma {:induction false} BuiltKeepsNames(m: Store, sections: seq<string>, count: nat, cs: seq<Config>)
    requires count <= |sections| && WellNamed(cs)
    ensures WellNamed(Built(m, sections, count, cs).0)
  {
    hide WellNamed, Taken, PoolOf, Settles;
    if count == 0 {
    } else {
      var name := sections[count - 1];
      if name != "global" && !Taken(cs, name) {
        PoolSettings(m, name);
        WellNamedSnoc(cs, PoolOf(m, name).0);
        BuiltKeepsNames(m, sections, count - 1, cs + [PoolOf(m, name).0]);
      }
    }
  }

  /** One include directory: each file a dictionary and its section list, until one fails. */
  function BuiltAll(files: seq<(Store, seq<string>)>, cs: seq<Config>): seq<Config> {
    if files == [] then cs
    else
      var (ds, ok) := Built(files[0].0, files[0].1, |files[0].1|, cs);
      if ok then BuiltAll(files[1..], ds) else ds
  }

  /** Any run over any files ends with a well-named list. */
  lemma {:induction false} NamesStayDistinct(files: seq<(Store, seq<string>)>, cs: seq<Config>)
    requires WellNamed(cs)
    ensures WellNamed(BuiltAll(files, cs))
    decreases |files|
  {
    hide WellNamed, Built;
    if files == [] {
    } else {
      BuiltKeepsNames(files[0].0, files[0].1, |files[0].1|, cs);
      var (ds, ok) := Built(files[0].0, files[0].1, |files[0].1|, cs);
      if ok {
        NamesStayDistinct(files[1..], ds);
      }
    }
  }

  /** Section number `i` cannot be a pool beside those in the list. */
  predicate NameRefused(sections: seq<string>, i: nat, cs: seq<Config>)
    requires i < |sections|
  {
    sections[i] == "global" || Taken(cs, sections[i])
  }

  /** The list only grows, by pools for the sections in reverse slot order. */
  lemma {:induction false} BuiltShape(m: Store, sections: seq<string>, count: nat, cs: seq<Config>)
    requires count <= |sections|
    ensures var (ds, ok) := Built(m, sections, count, cs);
            && cs <= ds && |ds| <= |cs| + count && (ok ==> |ds| == |cs| + count)
            && forall k :: |cs| <= k < |ds| ==> ds[k] == PoolOf(m, sections[count - 1 - (k - |cs|)]).0
    decreases count
  {
    hide Taken, PoolOf;
    if count == 0 {
    } else {
      var name := sections[count - 1];
      if !NameRefused(sections, count - 1, cs) && PoolOf(m, name).1 {
        var ds := cs + [PoolOf(m, name).0];
        BuiltShape(m, sections, count - 1, ds);
        var r := Built(m, sections, count, cs);
        assert r == Built(m, sections, count - 1, ds);
        assert ds[|cs|] == PoolOf(m, name).0;
      }
    }
  }

  /** A file that is not taken whole stops either in front of a section whose name is refused, or behind
      the first pool with a refused option, which stays in the list. */
  lemma {:induction false} BuiltStops(m: Store, sections: seq<string>, count: nat, cs: seq<Config>)
    requires count <= |sections|
    ensures var (ds, ok) := Built(m, sections, count, cs);
            var left := count - (|ds| - |cs|);
            && 0 <= left <= count
            && (forall i :: left < i < count ==> Settles(m, sections[i]))
            && (ok ==> left == 0 && (count > 0 ==> Settles(m, sections[0])))
            && (!ok ==>
                  || (left < count && !Settles(m, sections[left]))
                  || (left > 0 && NameRefused(sections, left - 1, ds)))
    decreases count
  {
    hide Taken, PoolOf, Settles;
    if count == 0 {
    } else {
      var name := sections[count - 1];
      PoolSettings(m, name);
      if !NameRefused(sections, count - 1, cs) {
        var ds := cs + [PoolOf(m, name).0];
        BuiltStops(m, sections, count - 1, ds);
      }
    }
  }

  /** A file leaves the list as it is exactly when it has no sections or its last one, which is looked
      at first, has a refused name. */
  lemma UnchangedIff(m: Store, sections: seq<string>, cs: seq<Config>)
    ensures Built(m, sections, |sections|, cs).0 == cs <==>
            sections == [] || NameRefused(sections, |sections| - 1, cs)
  {
    hide Taken, PoolOf;
    var count := |sections|;
    if count > 0 && !NameRefused(sections, count - 1, cs) {
      var ds := cs + [PoolOf(m, sections[count - 1]).0];
      BuiltShape(m, sections, count - 1, ds);
    }
  }

  /** The conditions for a file to be taken whole. */
  ghost predicate TakenWhole(m: Store, sections: seq<string>, count: nat, cs: seq<Config>)
    requires count <= |sections|
  {
    && (forall i :: 0 <= i < count ==> sections[i] != "global" && !Taken(cs, sections[i]) && Settles(m, sections[i]))
    && (forall i, j :: 0 <= i < j < count ==> !EqualIgnoringCase(sections[i], sections[j]))
  }

  lemma TakenSnoc(cs: seq<Config>, c: Config, name: string)
    requires c.name.Some?
    ensures Taken(cs + [c], name) <==> Taken(cs, name) || EqualIgnoringCase(c.name.value, name)
  {
    hide EqualIgnoringCase;
    if EqualIgnoringCase(c.name.value, name) {
      assert (cs + [c])[|cs|] == c;
    }
    if Taken(cs, name) {
      var i :| 0 <= i < |cs| && cs[i].name.Some? && EqualIgnoringCase(cs[i].name.value, name);
      assert (cs + [c])[i] == cs[i];
    }
  }

  lemma SameBothWays(a: string, b: string)
    ensures EqualIgnoringCase(a, b) <==> EqualIgnoringCase(b, a)
  {
  }

  /** A file is taken whole exactly when no section is called global, no name is used twice up to
      letter case - in the file or with the pools before - and every option that is present is
      acceptable to its row. */
  lemma {:induction false} BuiltIff(m: Store, sections: seq<string>, count: nat, cs: seq<Config>)
    requires count <= |sections|
    ensures Built(m, sections, count, cs).1 <==> TakenWhole(m, sections, count, cs)
    decreases count
  {
    hide Taken, PoolOf, EqualIgnoringCase, Settles;
    if count == 0 {
    } else {
      var name := sections[count - 1];
      var c := PoolOf(m, name).0;
      PoolSettings(m, name);
      BuiltIff(m, sections, count - 1, cs + [c]);
      forall i | 0 <= i < count - 1
        ensures Taken(cs + [c], sections[i]) <==> Taken(cs, sections[i]) || EqualIgnoringCase(sections[i], name)
      {
        TakenSnoc(cs, c, sections[i]);
        SameBothWays(name, sections[i]);
      }
    }
  }

  // Long section names.

  /** The entry a row should read. */
  function OwnKey(section: string, o: Setting): string {
    section + ":" + KeyName(o)
  }

  /** A row reads its own entry exactly when the entry's name is shorter than the key buffer. */
  lemma OwnKeyIff(section: string, o: Setting)
    ensures Fold(RealKey(section, o)) == Fold(OwnKey(section, o)) <==> |OwnKey(section, o)| < 128
  {
    hide KeyName;
  }

  lemma CutInsideName(section: string, o: Setting)
    requires |section| >= MAX_KEY_VALUE_LEN - 1
    ensures RealKey(section, o) == Take(section, MAX_KEY_VALUE_LEN - 1)
  {
    hide KeyName;
    var n := MAX_KEY_VALUE_LEN - 1;
    assert OwnKey(section, o)[..n] == section[..n];
  }

  lemma {:induction false} NothingRead(m: Store, section: string, c: Config, i: nat)
    requires i <= |Rows()|
    requires forall o :: !ValueOf(m, section, o).Text?
    ensures Loaded(m, section, c, i) == (c, true)
    decreases |Rows()| - i
  {
    hide Fold, Lookup, RealKey, WithValue, Rows;
    if i == |Rows()| {
    } else {
      NothingRead(m, section, c, i + 1);
      var _ := ValueOf(m, section, Rows()[i]);
    }
  }

  /** The name of a section of more than 126 characters fills the buffer: every row then reads the same
      entry, and where that has no value the pool is left with the defaults. */
  lemma LongNameLosesOptions(m: Store, section: string)
    requires |section| >= MAX_KEY_VALUE_LEN - 1
    requires !Lookup(m, Fold(Take(section, MAX_KEY_VALUE_LEN - 1)), Null).Text?
    ensures PoolOf(m, section) == (DEFAULTS.(name := Some(section)), true)
  {
    hide Fold, Lookup;
    forall o
      ensures RealKey(section, o) == Take(section, MAX_KEY_VALUE_LEN - 1)
    {
      CutInsideName(section, o);
    }
    NothingRead(m, section, DEFAULTS.(name := Some(section)), 0);
  }

  /** In a dictionary with one option of a section, the row reads it exactly when its name is shorter
      than the key buffer; a longer one is silently lost. */
  lemma OptionReadIff(section: string, o: Setting, v: string)
    requires Lower(section) == section
    ensures var m := map[section := None, Lower(OwnKey(section, o)) := Some(v)];
            ValueOf(m, section, o) == if |OwnKey(section, o)| < MAX_KEY_VALUE_LEN then Text(v) else Null
  {
    hide KeyName;
    var own, cut := Lower(OwnKey(section, o)), Fold(RealKey(section, o));
    assert |own| == |section| + 1 + |KeyName(o)|;
    if |OwnKey(section, o)| < MAX_KEY_VALUE_LEN {
      assert cut == own;
    } else {
      assert |cut| == MAX_KEY_VALUE_LEN - 1 < |own|;
    }
  }

  lemma KeyNameLength(o: Setting)
    ensures |KeyName(o)| <= |KeyName(IdleTimeout)| == 23
  {
  }

  /** Every row of a section reads its own entry exactly when the section's name has at most 103
      characters. */
  lemma OwnKeysIff(section: string)
    ensures (forall o :: |OwnKey(section, o)| < MAX_KEY_VALUE_LEN) <==> |section| <= 103
  {
    hide KeyName;
    forall o
      ensures |OwnKey(section, o)| <= |OwnKey(section, IdleTimeout)| == |section| + 24
    {
      KeyNameLength(o);
    }
  }

  /** Then each field of the pool is what its row makes of the entry under the row's own name, up to
      the first refused row, and the default where there is none. */
  lemma OwnSettings(m: Store, section: string)
    requires |section| <= 103
    ensures forall j :: 0 <= j < |Rows()| ==>
              var value := Lookup(m, Lower(OwnKey(section, Rows()[j])), Null);
              Field(PoolOf(m, section).0, Rows()[j]) ==
              if j < FirstRefused(m, section, 0) && value.Text?
              then Meaning(Rows()[j], value.text) else Field(DEFAULTS, Rows()[j])
  {
    hide KeyName, PoolOf, Meaning, Field, Rows, Lookup, FirstRefused;
    PoolSettings(m, section);
    OwnKeysIff(section);
    forall o
      ensures ValueOf(m, section, o) == Lookup(m, Lower(OwnKey(section, o)), Null)
    {
      assert |OwnKey(section, o)| < MAX_KEY_VALUE_LEN;
      assert Fold(RealKey(section, o)) == Lower(OwnKey(section, o));
    }
  }
}
