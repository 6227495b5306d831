/** The settings of a pool, option by option, under the names the configuration file uses. */
module PoolOptions {
  import opened CText
  import opened ConfNumbers
  import opened Dictionary
  import opened IniAccess
  import opened PoolConfig
  import opened PoolName
  import opened PoolParse

  /** The value of an option of a section. */
  function EntryOf(m: Store, section: string, name: string): Pointer {
    Lookup(m, Lower(section + ":" + name), Null)
  }

  function TextOr(value: Pointer, other: Option<string>): Option<string> {
    if value.Text? then Some(Expanded(value.text)) else other
  }

  function NumberOr(value: Pointer, other: int): int {
    if value.Text? then Atoi(value.text) else other
  }

  /** PM_STYLE_STATIC, PM_STYLE_DYNAMIC and PM_STYLE_ONDEMAND are 1, 2 and 3; no style is 0. */
  function StyleOf(value: Pointer): int {
    if !value.Text? then 0
    else if Lower(value.text) == "static" then 1
    else if Lower(value.text) == "dynamic" then 2
    else 3
  }

  predicate NumberFits(value: Pointer) {
    value.Text? ==> forall i :: 0 <= i < |value.text| ==>
                      '0' <= value.text[i] <= '9' || (i == 0 && value.text[0] == '-')
  }

  predicate StyleFits(value: Pointer) {
    value.Text? ==>
      Lower(value.text) == "static" || Lower(value.text) == "dynamic" || Lower(value.text) == "ondemand"
  }

  /** The rows of the option table, in their order, which is the order in which options are set. */
  lemma TableOrder()
    ensures Rows() == [User, Group, Listen, Backlog, Priority, Dumpable, Pm, MaxChildren, StartServers,
                       MinSpare, MaxSpare, IdleTimeout, MaxRequests]
    ensures KeyName(User) == "user" && KeyName(Group) == "group" && KeyName(Listen) == "listen"
    ensures KeyName(Backlog) == "listen_backlog" && KeyName(Priority) == "process_priority"
    ensures KeyName(Dumpable) == "process.dumpable" && KeyName(Pm) == "pm"
    ensures KeyName(MaxChildren) == "pm.max_children" && KeyName(StartServers) == "pm.start_servers"
    ensures KeyName(MinSpare) == "pm.min_spare_servers" && KeyName(MaxSpare) == "pm.max_spare_servers"
    ensures KeyName(IdleTimeout) == "pm.process_idle_timeout" && KeyName(MaxRequests) == "pm.max_requests"
  {
  }

  lemma WordsAreLower()
    ensures Lower("static") == "static" && Lower("dynamic") == "dynamic" && Lower("ondemand") == "ondemand"
  {
  }

  lemma ValueIsEntry(m: Store, section: string, o: Setting)
    requires |section| <= 103
    ensures ValueOf(m, section, o) == EntryOf(m, section, KeyName(o))
  {
    hide KeyName, Lookup;
    OwnKeysIff(section);
    assert |OwnKey(section, o)| < MAX_KEY_VALUE_LEN;
    assert Fold(RealKey(section, o)) == Lower(OwnKey(section, o));
  }

  lemma RowOf(o: Setting) returns (j: nat)
    ensures j < |Rows()| && Rows()[j] == o
  {
    match o
    case User => j := 0;
    case Group => j := 1;
    case Listen => j := 2;
    case Backlog => j := 3;
    case Priority => j := 4;
    case Dumpable => j := 5;
    case Pm => j := 6;
    case MaxChildren => j := 7;
    case StartServers => j := 8;
    case MinSpare => j := 9;
    case MaxSpare => j := 10;
    case IdleTimeout => j := 11;
    case MaxRequests => j := 12;
  }

  /** One row of a section whose options are all acceptable. */
  lemma RowSetting(m: Store, section: string, o: Setting)
    requires |section| <= 103 && Settles(m, section)
    ensures var value := EntryOf(m, section, KeyName(o));
            Field(PoolOf(m, section).0, o) == if value.Text? then Meaning(o, value.text) else Field(DEFAULTS, o)
    ensures EntryOf(m, section, KeyName(o)).Text? ==> Acceptable(o, EntryOf(m, section, KeyName(o)).text)
  {
    hide KeyName, Rows, PoolOf, Meaning, Field, Acceptable, Lookup, EntryOf, FirstRefused, ValueOf;
    var j := RowOf(o);
    PoolSettings(m, section);
    FirstRefusedIsFirst(m, section, 0);
    ValueIsEntry(m, section, o);
    assert !Refused(m, section, Rows()[j]);
  }

  lemma MeaningOfText(o: Setting, value: Pointer)
    requires IsText(o)
    ensures (if value.Text? then Meaning(o, value.text) else TextField(None)) == TextField(TextOr(value, None))
  {
    hide Expanded;
  }

  lemma MeaningOfNumber(o: Setting, value: Pointer, other: int)
    requires !IsText(o) && !o.Pm?
    ensures (if value.Text? then Meaning(o, value.text) else NumberField(other)) == NumberField(NumberOr(value, other))
  {
    hide Atoi;
  }

  lemma MeaningOfStyle(value: Pointer)
    requires value.Text? ==> Acceptable(Pm, value.text)
    ensures (if value.Text? then Meaning(Pm, value.text) else NumberField(0)) == NumberField(StyleOf(value))
  {
    WordsAreLower();
  }

  lemma TextSetting(m: Store, section: string, o: Setting)
    requires |section| <= 103 && Settles(m, section) && IsText(o)
    ensures Field(PoolOf(m, section).0, o) == TextField(TextOr(EntryOf(m, section, KeyName(o)), None))
  {
    hide KeyName, PoolOf, Meaning, Settles, EntryOf;
    RowSetting(m, section, o);
    MeaningOfText(o, EntryOf(m, section, KeyName(o)));
  }

  lemma NumberSetting(m: Store, section: string, o: Setting, other: int)
    requires |section| <= 103 && Settles(m, section) && !IsText(o) && !o.Pm? && Field(DEFAULTS, o) == NumberField(other)
    ensures Field(PoolOf(m, section).0, o) == NumberField(NumberOr(EntryOf(m, section, KeyName(o)), other))
  {
    hide KeyName, PoolOf, Meaning, Settles, EntryOf, Field;
    RowSetting(m, section, o);
    MeaningOfNumber(o, EntryOf(m, section, KeyName(o)), other);
  }

  lemma StyleSetting(m: Store, section: string)
    requires |section| <= 103 && Settles(m, section)
    ensures PoolOf(m, section).0.pmType == StyleOf(EntryOf(m, section, "pm"))
  {
    hide PoolOf, Meaning, Settles, EntryOf, Acceptable, StyleOf;
    RowSetting(m, section, Pm);
    MeaningOfStyle(EntryOf(m, section, KeyName(Pm)));
  }

  /** Every setting of a pool whose options are all acceptable, with its name in the file and its
      default. */
  lemma SettingsByName(m: Store, section: string)
    requires |section| <= 103 && Settles(m, section)
    ensures var c := PoolOf(m, section).0;
            && c.name == Some(section)
            && c.user == TextOr(EntryOf(m, section, "user"), None)
            && c.group == TextOr(EntryOf(m, section, "group"), None)
            && c.listen == TextOr(EntryOf(m, section, "listen"), None)
            && c.backlog == NumberOr(EntryOf(m, section, "listen_backlog"), 511)
            && c.priority == NumberOr(EntryOf(m, section, "process_priority"), 64)
            && c.dumpable == NumberOr(EntryOf(m, section, "process.dumpable"), 0)
            && c.pmType == StyleOf(EntryOf(m, section, "pm"))
            && c.maxChildren == NumberOr(EntryOf(m, section, "pm.max_children"), 0)
            && c.startServers == NumberOr(EntryOf(m, section, "pm.start_servers"), 0)
            && c.minSpare == NumberOr(EntryOf(m, section, "pm.min_spare_servers"), 0)
            && c.maxSpare == NumberOr(EntryOf(m, section, "pm.max_spare_servers"), 0)
            && c.idleTimeout == NumberOr(EntryOf(m, section, "pm.process_idle_timeout"), 10)
            && c.maxRequests == NumberOr(EntryOf(m, section, "pm.max_requests"), 0)
  {
    hide PoolOf, EntryOf, TextOr, NumberOr, StyleOf, Settles, KeyName, Rows;
    TableOrder();
    PoolSettings(m, section);
    TextSetting(m, section, User);
    TextSetting(m, section, Group);
    TextSetting(m, section, Listen);
    NumberSetting(m, section, Backlog, 511);
    NumberSetting(m, section, Priority, 64);
    NumberSetting(m, section, Dumpable, 0);
    StyleSetting(m, section);
    NumberSetting(m, section, MaxChildren, 0);
    NumberSetting(m, section, StartServers, 0);
    NumberSetting(m, section, MinSpare, 0);
    NumberSetting(m, section, MaxSpare, 0);
    NumberSetting(m, section, IdleTimeout, 10);
    NumberSetting(m, section, MaxRequests, 0);
  }

  lemma RefusedIff(m: Store, section: string, o: Setting)
    requires |section| <= 103
    ensures var value := EntryOf(m, section, KeyName(o));
            Refused(m, section, o) <==>
              if IsText(o) then false else if o.Pm? then !StyleFits(value) else !NumberFits(value)
  {
    hide KeyName, EntryOf, ValueOf, Atoi;
    ValueIsEntry(m, section, o);
    WordsAreLower();
    if ValueOf(m, section, o).Text? {
      NumeralIff(ValueOf(m, section, o).text);
    }
  }

  /** The options of a section are all acceptable exactly when the style is one of three words and the
      nine numbers are numerals, as far as they are present. */
  lemma SettlesIff(m: Store, section: string)
    requires |section| <= 103
    ensures Settles(m, section) <==>
            && NumberFits(EntryOf(m, section, "listen_backlog"))
            && NumberFits(EntryOf(m, section, "process_priority"))
            && NumberFits(EntryOf(m, section, "process.dumpable"))
            && StyleFits(EntryOf(m, section, "pm"))
            && NumberFits(EntryOf(m, section, "pm.max_children"))
            && NumberFits(EntryOf(m, section, "pm.start_servers"))
            && NumberFits(EntryOf(m, section, "pm.min_spare_servers"))
            && NumberFits(EntryOf(m, section, "pm.max_spare_servers"))
            && NumberFits(EntryOf(m, section, "pm.process_idle_timeout"))
            && NumberFits(EntryOf(m, section, "pm.max_requests"))
  {
    hide EntryOf, NumberFits, StyleFits, KeyName, Refused, Rows;
    TableOrder();
    forall o
      ensures Refused(m, section, o) ==> !Settles(m, section)
      ensures var value := EntryOf(m, section, KeyName(o));
              Refused(m, section, o) <==>
              if IsText(o) then false else if o.Pm? then !StyleFits(value) else !NumberFits(value)
    {
      var j := RowOf(o);
      RefusedIff(m, section, o);
    }
  }
}
