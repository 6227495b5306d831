/** Numeric configuration options: integers, times and the core-size limit. */
module ConfNumbers {
  import opened CNumbers
  import opened CText

  /** A `long` narrowed to `int`. */
  function CastInt(x: int): (r: int)
    ensures IsInt(r)
    ensures IsInt(x) ==> r == x
  {
    (x + INT_MAX + 1) % (2 * (INT_MAX + 1)) - INT_MAX - 1
  }

  predicate AllDigits(s: string) {
    forall i :: 0 <= i < |s| ==> IsDigit(s[i])
  }

  /** An optional minus, then digits; both parts may be empty. */
  predicate IsNumeral(s: string) {
    AllDigits(s) || (s != "" && s[0] == '-' && AllDigits(s[1..]))
  }

  function DigitPrefix(s: string): string {
    if s != "" && IsDigit(s[0]) then [s[0]] + DigitPrefix(s[1..]) else ""
  }

  function DigitsValue(ds: string): int {
    if ds == "" then 0 else 10 * DigitsValue(ds[..|ds| - 1]) + (ds[|ds| - 1] as int - '0' as int)
  }

  /** strtol(s, NULL, 10): blanks, a sign, digits; out-of-range values saturate. */
  function StrtolDec(s: string): int {
    var t := LTrim(s);
    var negative := t != "" && t[0] == '-';
    var signed := t != "" && (t[0] == '-' || t[0] == '+');
    var v := DigitsValue(DigitPrefix(if signed then t[1..] else t));
    if negative then (if v > LONG_MAX + 1 then -LONG_MAX - 1 else -v) else (if v > LONG_MAX then LONG_MAX else v)
  }

  function Atoi(s: string): (r: int)
    ensures IsInt(r)
  {
    CastInt(StrtolDec(s))
  }

  /** An `int` field of a configuration struct. */
  class IntField {
    var v: int

    constructor (v: int)
      ensures this.v == v
    {
      this.v := v;
    }
  }

  const NOT_A_NUMBER := "is not a valid number (greater or equal than zero)"

  /** The number a numeral writes; one without digits writes zero. */
  function Written(s: string): int {
    if s != "" && s[0] == '-' then -DigitsValue(s[1..]) else DigitsValue(s)
  }

  /** strtol keeps to the range of `long`. */
  function Saturated(x: int): int {
    if x > LONG_MAX then LONG_MAX else if x < -LONG_MAX - 1 then -LONG_MAX - 1 else x
  }

  lemma {:induction false} DigitPrefixOfDigits(ds: string, rest: string)
    requires AllDigits(ds)
    requires rest == "" || !IsDigit(rest[0])
    ensures DigitPrefix(ds + rest) == ds
  {
    if ds == "" {
      assert ds + rest == rest;
    } else {
      assert (ds + rest)[1..] == ds[1..] + rest;
      DigitPrefixOfDigits(ds[1..], rest);
    }
  }

  lemma AllDigitsPrefix(ds: string)
    requires AllDigits(ds)
    ensures DigitPrefix(ds) == ds
  {
    DigitPrefixOfDigits(ds, "");
    assert ds + "" == ds;
  }

  lemma {:induction false} DigitsAreNonNegative(ds: string)
    requires AllDigits(ds)
    ensures DigitsValue(ds) >= 0
  {
    if ds == "" {
    } else {
      DigitsAreNonNegative(ds[..|ds| - 1]);
    }
  }

  /** A numeral is read whole, clamped to `long` and then narrowed to `int`. */
  lemma AtoiOfNumeral(s: string)
    requires IsNumeral(s)
    ensures Atoi(s) == CastInt(Saturated(Written(s)))
  {
    hide CastInt, DigitsValue, DigitPrefix;
    assert LTrim(s) == s;
    if s != "" && s[0] == '-' {
      AllDigitsPrefix(s[1..]);
      DigitsAreNonNegative(s[1..]);
    } else {
      AllDigitsPrefix(s);
      DigitsAreNonNegative(s);
    }
  }

  lemma CastSaturated(x: int)
    ensures CastInt(Saturated(x)) == x <==> IsInt(x)
  {
  }

  /** An accepted integer option stores the number its text writes exactly when that is an int. */
  lemma StoresWrittenIff(s: string)
    requires IsNumeral(s)
    ensures Atoi(s) == Written(s) <==> IsInt(Written(s))
  {
    hide CastInt, Saturated;
    AtoiOfNumeral(s);
    CastSaturated(Written(s));
  }

  lemma NumeralIff(s: string)
    ensures IsNumeral(s) <==> forall i :: 0 <= i < |s| ==> '0' <= s[i] <= '9' || (i == 0 && s[0] == '-')
  {
    if s != "" && s[0] == '-' {
      assert forall i :: 0 < i < |s| ==> s[i] == s[1..][i - 1];
    }
  }

  /** pmf_conf_set_integer */
  method SetInteger(value: string, field: IntField) returns (error: Option<string>)
    modifies field
    ensures error.None? <==> IsNumeral(value)
    ensures error.None? <==> forall i :: 0 <= i < |value| ==> '0' <= value[i] <= '9' || (i == 0 && value[0] == '-')
    ensures field.v == if error.None? then Atoi(value) else old(field.v)
    ensures error.None? ==> (field.v == Written(value) <==> IsInt(Written(value)))
  {
    var p := 0;
    while p < |value|
      invariant 0 <= p <= |value|
      invariant forall i :: 0 <= i < p ==> IsDigit(value[i]) || (i == 0 && value[0] == '-')
    {
      if p == 0 && value[p] == '-' {
        p := p + 1;
        continue;
      }
      if value[p] < '0' || value[p] > '9' {
        NumeralIff(value);
        return Some(NOT_A_NUMBER);
      }
      p := p + 1;
    }
    NumeralIff(value);
    StoresWrittenIff(value);
    field.v := Atoi(value);
    return None;
  }

  const NOT_A_LIMIT := "must be greater than zero or 'unlimited'"

  /** strcasecmp(a, b) == 0 */
  predicate EqualIgnoringCase(a: string, b: string) {
    Lower(a) == Lower(b)
  }

  lemma UnlimitedIsNoNumeral(value: string)
    requires EqualIgnoringCase(value, "unlimited")
    ensures !IsNumeral(value)
  {
    assert Lower(value)[0] == Lower("unlimited")[0] == 'u';
    assert |Lower(value)| == |Lower("unlimited")| == 9;
  }

  lemma LowerUnlimited()
    ensures Lower("unlimited") == "unlimited"
  {
  }

  /** pmf_conf_set_rlimit_core: -1 stands for `unlimited` and is stored for nothing else. */
  method SetRlimitCore(value: string, field: IntField) returns (error: Option<string>)
    modifies field
    ensures error.None? <==> Lower(value) == "unlimited" || (IsNumeral(value) && Atoi(value) >= 0)
    ensures error.None? ==> (field.v == -1 <==> Lower(value) == "unlimited")
    ensures error.None? && Lower(value) != "unlimited" ==> field.v == Atoi(value) >= 0
    ensures error.Some? ==> field.v == old(field.v)
  {
    LowerUnlimited();
    if EqualIgnoringCase(value, "unlimited") {
      field.v := -1;
      UnlimitedIsNoNumeral(value);
      return None;
    }
    var intValue := new IntField(0);
    error := SetInteger(value, intValue);
    if error.Some? {
      return;
    }
    if intValue.v < 0 {
      return Some(NOT_A_LIMIT);
    }
    field.v := intValue.v;
  }

  predicate IsTimeSuffix(c: char) {
    c == 'm' || c == 'h' || c == 'd' || c == 's'
  }

  function UnitSeconds(c: char): int {
    if c == 'm' then 60 else if c == 'h' then 60 * 60 else if c == 'd' then 24 * 60 * 60 else 1
  }

  /** The seconds a time text stands for. The product is an `int`: where it would overflow the
      C program is undefined, and this model wraps. */
  function TimeValue(value: string): int
    requires value != ""
  {
    var c := value[|value| - 1];
    if IsTimeSuffix(c) then CastInt(UnitSeconds(c) * Atoi(value[..|value| - 1])) else Atoi(value)
  }

  predicate IsTime(value: string) {
    value != "" && (IsTimeSuffix(value[|value| - 1]) || IsDigit(value[|value| - 1]))
  }

  /** pmf_conf_set_time: only the last character decides whether a text is accepted. */
  method SetTime(value: string, field: IntField) returns (error: Option<string>)
    modifies field
    ensures error.None? <==> IsTime(value)
    ensures field.v == if error.None? then TimeValue(value) else old(field.v)
    ensures error.None? ==>
              var number, last := Atoi(value[..|value| - 1]), value[|value| - 1];
              && (last == 's' ==> field.v == number)
              && (last == 'm' && IsInt(60 * number) ==> field.v == 60 * number)
              && (last == 'h' && IsInt(3600 * number) ==> field.v == 3600 * number)
              && (last == 'd' && IsInt(86400 * number) ==> field.v == 86400 * number)
              && ('0' <= last <= '9' ==> field.v == Atoi(value))
  {
    hide Atoi, CastInt;
    var len := |value|;
    if len == 0 {
      return Some("invalid time value");
    }
    var val, suffix, seconds := value, value[len - 1], 0;
    if suffix == 'm' {
      val := val[..len - 1];
      seconds := CastInt(60 * Atoi(val));
    } else if suffix == 'h' {
      val := val[..len - 1];
      seconds := CastInt(60 * 60 * Atoi(val));
    } else if suffix == 'd' {
      val := val[..len - 1];
      seconds := CastInt(24 * 60 * 60 * Atoi(val));
    } else {
      if suffix == 's' {
        val := val[..len - 1];
        suffix := '0';
      }
      if suffix < '0' || suffix > '9' {
        return Some("unknown suffix used in time value");
      }
      seconds := Atoi(val);
    }
    field.v := seconds;
    return None;
  }

  // Reading back what was printed.

  function DigitChar(d: nat): (c: char)
    requires d < 10
    ensures IsDigit(c) && c as int - '0' as int == d
  {
    (d + '0' as int) as char
  }

  /** `%d` of a non-negative number. */
  function Decimal(n: nat): string {
    (if n < 10 then "" else Decimal(n / 10)) + [DigitChar(n % 10)]
  }

  /** `%d` */
  function PrintInt(n: int): string {
    if n < 0 then "-" + Decimal(-n) else Decimal(n)
  }

  lemma DigitAppended(ds: string, c: char)
    requires AllDigits(ds) && IsDigit(c)
    ensures AllDigits(ds + [c]) && DigitsValue(ds + [c]) == 10 * DigitsValue(ds) + (c as int - '0' as int)
  {
    assert (ds + [c])[..|ds + [c]| - 1] == ds;
  }

  lemma NoDigits()
    ensures AllDigits("") && DigitsValue("") == 0
  {
  }

  lemma {:induction false} DecimalReadsBack(n: nat)
    ensures Decimal(n) != "" && AllDigits(Decimal(n)) && DigitsValue(Decimal(n)) == n
  {
    hide DigitChar, AllDigits;
    if n < 10 {
      NoDigits();
      DigitAppended("", DigitChar(n));
    } else {
      DecimalReadsBack(n / 10);
      DigitAppended(Decimal(n / 10), DigitChar(n % 10));
    }
  }

  lemma DigitsStart(ds: string)
    requires ds != "" && AllDigits(ds)
    ensures IsDigit(ds[0])
  {
  }

  lemma AtoiOfPrint(n: int)
    requires IsInt(n)
    ensures Atoi(PrintInt(n)) == n
  {
    hide CastInt, Decimal, DigitsValue, DigitPrefix, AllDigits;
    var m := if n < 0 then -n else n;
    DecimalReadsBack(m);
    DigitPrefixOfDigits(Decimal(m), "");
    assert Decimal(m) + "" == Decimal(m);
    var s := PrintInt(n);
    DigitsStart(Decimal(m));
    assert LTrim(s) == s;
    assert n < 0 ==> s[1..] == Decimal(m);
  }

  /** The decimal print of any int is accepted and gives that int back. */
  lemma IntegerReadsBack(n: int)
    requires IsInt(n)
    ensures IsNumeral(PrintInt(n)) && Atoi(PrintInt(n)) == n
  {
    AtoiOfPrint(n);
    DecimalReadsBack(if n < 0 then -n else n);
    assert n < 0 ==> PrintInt(n)[1..] == Decimal(-n);
  }

  /** A printed int without a unit, or with one of the four, is accepted as that many units. */
  lemma TimeReadsBack(n: int, unit: Option<char>)
    requires unit.Some? ==> IsTimeSuffix(unit.value)
    requires IsInt(n) && (unit.Some? ==> IsInt(UnitSeconds(unit.value) * n))
    ensures var text := PrintInt(n) + if unit.Some? then [unit.value] else "";
            IsTime(text) && TimeValue(text) == if unit.Some? then UnitSeconds(unit.value) * n else n
  {
    hide CastInt, UnitSeconds, Decimal, Atoi;
    AtoiOfPrint(n);
    DecimalReadsBack(if n < 0 then -n else n);
    var text := PrintInt(n) + if unit.Some? then [unit.value] else "";
    if unit.Some? {
      assert text[..|text| - 1] == PrintInt(n);
    } else {
      assert text == PrintInt(n);
      var d := Decimal(if n < 0 then -n else n);
      assert text[|text| - 1] == d[|d| - 1];
      assert IsDigit(d[|d| - 1]);
    }
  }

  /** The four units in seconds. */
  lemma UnitsReadBack(n: int)
    requires IsInt(n)
    ensures TimeValue(PrintInt(n)) == n && TimeValue(PrintInt(n) + "s") == n
    ensures IsInt(60 * n) ==> TimeValue(PrintInt(n) + "m") == 60 * n
    ensures IsInt(3600 * n) ==> TimeValue(PrintInt(n) + "h") == 3600 * n
    ensures IsInt(86400 * n) ==> TimeValue(PrintInt(n) + "d") == 86400 * n
  {
    hide TimeValue, IsTime, PrintInt;
    TimeReadsBack(n, None);
    assert PrintInt(n) + "" == PrintInt(n);
    TimeReadsBack(n, Some('s'));
    if IsInt(60 * n) {
      TimeReadsBack(n, Some('m'));
    }
    if IsInt(3600 * n) {
      TimeReadsBack(n, Some('h'));
    }
    if IsInt(86400 * n) {
      TimeReadsBack(n, Some('d'));
    }
  }

  // What the setters store, for every text they accept.

  lemma CastSign(x: int)
    ensures CastInt(x) >= 0 <==> x % UINT <= INT_MAX
  {
  }

  /** The documentation asks for a number greater than or equal to zero. What an accepted text
      stores is one exactly when the number written, clamped to `long`, has its bit 31 clear; it is
      the number written exactly when that lies between zero and the largest int. */
  lemma StoresNonNegativeIff(s: string)
    requires IsNumeral(s)
    ensures Atoi(s) >= 0 <==> Saturated(Written(s)) % UINT <= INT_MAX
    ensures Atoi(s) >= 0 && Atoi(s) == Written(s) <==> 0 <= Written(s) <= INT_MAX
  {
    hide CastInt, Saturated, Atoi;
    AtoiOfNumeral(s);
    CastSign(Saturated(Written(s)));
    StoresWrittenIff(s);
  }

  lemma SmallText()
    ensures PrintInt(-5) == "-5"
  {
  }

  /** A number that an int cannot hold is still accepted. */
  lemma LargeReadsBack(n: nat)
    ensures IsNumeral(Decimal(n)) && Atoi(Decimal(n)) == CastInt(Saturated(n))
  {
    hide CastInt, Saturated, DigitsValue, Decimal, Atoi;
    DecimalReadsBack(n);
    AtoiOfNumeral(Decimal(n));
    DigitsStart(Decimal(n));
  }

  lemma DecimalStep(n: nat)
    requires n >= 10
    ensures Decimal(n) == Decimal(n / 10) + [DigitChar(n % 10)]
  {
  }

  lemma LargeText()
    ensures Decimal(2147483648) == "2147483648"
  {
    assert Decimal(2) == "2";
    hide Decimal;
    DecimalStep(21);
    DecimalStep(214);
    DecimalStep(2147);
    DecimalStep(21474);
    DecimalStep(214748);
    DecimalStep(2147483);
    DecimalStep(21474836);
    DecimalStep(214748364);
    DecimalStep(2147483648);
  }

  lemma LargeNarrowed()
    ensures CastInt(Saturated(2147483648)) == -2147483648
  {
  }

  /** Two accepted texts that store a negative number: one with a minus, one without. */
  lemma NegativeAccepted()
    ensures IsNumeral("-5") && Atoi("-5") == -5
    ensures IsNumeral("2147483648") && Atoi("2147483648") == -2147483648
  {
    hide Atoi, IsNumeral, DigitsValue, Decimal, CastInt, PrintInt;
    SmallText();
    IntegerReadsBack(-5);
    LargeText();
    LargeReadsBack(2147483648);
    LargeNarrowed();
  }

  /** The text before the unit, if there is one. */
  function NumberPart(value: string): string
    requires value != ""
  {
    if IsTimeSuffix(value[|value| - 1]) then value[..|value| - 1] else value
  }

  function UnitOf(value: string): int
    requires value != ""
  {
    if IsTimeSuffix(value[|value| - 1]) then UnitSeconds(value[|value| - 1]) else 1
  }

  /** `value` is a numeral, ending in a digit when there is no unit, followed by the unit. */
  ghost predicate WritesTime(value: string, number: string, unit: Option<char>) {
    && IsNumeral(number)
    && (unit.Some? ==> IsTimeSuffix(unit.value) && value == number + [unit.value])
    && (unit.None? ==> number != "" && IsDigit(number[|number| - 1]) && value == number)
  }

  /** An accepted time option stores some number times its unit, as its text writes them, exactly
      when the text before the unit is a numeral and the product is an int. */
  lemma StoresTimeIff(value: string)
    requires IsTime(value)
    ensures (exists number, unit :: WritesTime(value, number, unit) &&
               TimeValue(value) == (if unit.Some? then UnitSeconds(unit.value) else 1) * Written(number)) <==>
            IsNumeral(NumberPart(value)) && IsInt(UnitOf(value) * Written(NumberPart(value)))
  {
    hide Atoi, IsNumeral, Written;
    var last := value[|value| - 1];
    var unit := if IsTimeSuffix(last) then Some(last) else None;
    forall number, u | WritesTime(value, number, u)
      ensures number == NumberPart(value) && u == unit
    {
      if u.Some? {
        assert value[..|value| - 1] == number;
      }
    }
    if IsNumeral(NumberPart(value)) {
      StoresWrittenIff(NumberPart(value));
      assert WritesTime(value, NumberPart(value), unit);
    }
  }

  /** An accepted text that writes no time at all: it stores zero. */
  lemma NoTimeAccepted()
    ensures IsTime("xs") && !IsNumeral(NumberPart("xs")) && TimeValue("xs") == 0
  {
    assert NumberPart("xs") == "x";
    assert DigitPrefix("x") == "" && LTrim("x") == "x";
  }

  function SignText(sign: Option<char>): string {
    if sign.Some? then [sign.value] else ""
  }

  /** What is read from any text: blanks, a sign, digits, and nothing behind them. */
  lemma AtoiOfText(b: string, sign: Option<char>, ds: string, rest: string)
    requires Blank(b) && AllDigits(ds) && (rest != "" ==> !IsDigit(rest[0]))
    requires sign.Some? ==> sign.value == '-' || sign.value == '+'
    requires sign.None? && ds == "" && rest != "" ==> !IsSpace(rest[0]) && rest[0] != '-' && rest[0] != '+'
    ensures Atoi(b + (SignText(sign) + (ds + rest))) ==
            CastInt(Saturated(if sign == Some('-') then -DigitsValue(ds) else DigitsValue(ds)))
  {
    hide CastInt, DigitsValue, DigitPrefix;
    var t := SignText(sign) + (ds + rest);
    if ds != "" {
      DigitsStart(ds);
      assert (ds + rest)[0] == ds[0];
    }
    LTrimDropsBlanks(b, t);
    DigitPrefixOfDigits(ds, rest);
    DigitsAreNonNegative(ds);
    assert sign.Some? ==> t[1..] == ds + rest;
    assert sign.None? ==> t == ds + rest;
  }

  /** What a numeral beyond `int` stores: the low 32 bits, of the nearest `long` beyond that. */
  lemma FarNumbers(s: string)
    requires IsNumeral(s)
    ensures Written(s) >= 0x8000_0000_0000_0000 ==> Atoi(s) == -1
    ensures Written(s) < -0x8000_0000_0000_0000 ==> Atoi(s) == 0
    ensures -0x8000_0000_0000_0000 <= Written(s) < 0x8000_0000_0000_0000 ==>
              Atoi(s) == (Written(s) + 0x8000_0000) % 0x1_0000_0000 - 0x8000_0000
  {
    hide Written, Atoi;
    AtoiOfNumeral(s);
  }
}
