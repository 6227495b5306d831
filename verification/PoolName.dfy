/** The `$pool` token in configuration strings. */
module PoolName {
  import opened CText

  /** Size of the buffer the rewritten string goes through. */
  const MAX_KEY_VALUE_LEN: nat := 128

  const TOKEN := "$pool"
  const NAME := "pool"

  predicate TokenAt(s: string, i: nat) {
    i + |TOKEN| <= |s| && s[i..i + |TOKEN|] == TOKEN
  }

  lemma TokenInTail(s: string)
    requires s != ""
    ensures forall i :: 1 <= i ==> (TokenAt(s, i) <==> TokenAt(s[1..], i - 1))
  {
    forall i | 1 <= i
      ensures TokenAt(s, i) <==> TokenAt(s[1..], i - 1)
    {
      if i + |TOKEN| <= |s| {
        assert s[1..][i - 1..i - 1 + |TOKEN|] == s[i..i + |TOKEN|];
      }
    }
  }

  /** strstr(s, "$pool") as an index: the first occurrence, or the length. */
  function FindToken(s: string): (n: nat)
    ensures n <= |s|
    ensures forall i :: 0 <= i < n ==> !TokenAt(s, i)
    ensures n < |s| ==> TokenAt(s, n)
  {
    if s == "" then 0
    else if TokenAt(s, 0) then 0
    else
      TokenInTail(s);
      1 + FindToken(s[1..])
  }

  predicate HasToken(s: string) {
    FindToken(s) < |s|
  }

  /** The first occurrence replaced, before the buffer cuts the text off. */
  function Replaced(s: string): (r: string)
    requires HasToken(s)
    ensures |r| == |s| - 1
  {
    var i := FindToken(s);
    s[..i] + NAME + s[i + |TOKEN|..]
  }

  /** One turn of the loop: snprintf into a buffer of MAX_KEY_VALUE_LEN characters. */
  function Rewritten(s: string): (r: string)
    requires HasToken(s)
    ensures |r| < |s| && |r| < MAX_KEY_VALUE_LEN
  {
    Take(Replaced(s), MAX_KEY_VALUE_LEN - 1)
  }

  /** What the loop leaves. */
  function Expanded(s: string): string
    decreases |s|
  {
    if HasToken(s) then Expanded(Rewritten(s)) else s
  }

  /** A `char *` variable. */
  class StringSlot {
    var text: Option<string>

    constructor (text: Option<string>)
      ensures this.text == text
    {
      this.text := text;
    }
  }

  /** pmf_conf_expand_pool_name */
  method ExpandPoolName(value: StringSlot?) returns (ret: int)
    modifies if value == null then {} else {value}
    ensures ret == 0
    ensures value != null ==>
              value.text == if old(value.text).None? then None else Some(Expanded(old(value.text.value)))
  {
    if value == null || value.text.None? {
      return 0;
    }
    while HasToken(value.text.value)
      invariant value.text.Some? && Expanded(value.text.value) == Expanded(old(value.text.value))
      decreases |value.text.value|
    {
      var token := FindToken(value.text.value);
      var before, after := value.text.value[..token], value.text.value[token + |TOKEN|..];
      value.text := Some(Take(before + NAME + after, MAX_KEY_VALUE_LEN - 1));
    }
    return 0;
  }

  /** pmf_config_set_string: a fresh copy, expanded. */
  method SetString(value: string, slot: StringSlot) returns (error: Option<string>)
    modifies slot
    ensures error == None && slot.text == Some(Expanded(value))
  {
    slot.text := Some(value);
    var ret := ExpandPoolName(slot);
    if ret == -1 {
      return Some("Can't use '$pool' when the pool is not defined");
    }
    return None;
  }

  /** The loop leaves no token. */
  lemma {:induction false} NoTokenLeft(s: string)
    ensures !HasToken(Expanded(s))
    decreases |s|
  {
    if !HasToken(s) {
    } else {
      NoTokenLeft(Rewritten(s));
    }
  }

  /** Nowhere in it do the five characters of `$pool` stand in a row. */
  lemma NoPoolText(s: string, i: nat)
    requires i + 5 <= |Expanded(s)|
    ensures Expanded(s)[i..i + 5] != "$pool"
  {
    NoTokenLeft(s);
    assert !TokenAt(Expanded(s), i);
  }

  // The one-pass form.

  function SkipDollars(s: string): string {
    if s != "" && s[0] == '$' then SkipDollars(s[1..]) else s
  }

  /** `s` starts with a `$` of a run of `$` that stands directly before `pool`. */
  predicate Doomed(s: string) {
    s != "" && s[0] == '$' && NAME <= SkipDollars(s)
  }

  /** Delete every run of `$` that stands directly before `pool`, in one pass. */
  function OnePass(s: string): string {
    if s == "" then "" else (if Doomed(s) then "" else [s[0]]) + OnePass(s[1..])
  }

  function Dollars(n: nat): string {
    if n == 0 then "" else "$" + Dollars(n - 1)
  }

  lemma {:induction false} SkipDollarsOver(n: nat, s: string)
    requires s != "" ==> s[0] != '$'
    ensures SkipDollars(Dollars(n) + s) == s
  {
    if n == 0 {
      assert Dollars(0) + s == s;
    } else {
      assert (Dollars(n) + s)[1..] == Dollars(n - 1) + s;
      SkipDollarsOver(n - 1, s);
    }
  }

  lemma OnePassPlain(c: char, s: string)
    requires c != '$'
    ensures OnePass([c] + s) == [c] + OnePass(s)
  {
    assert ([c] + s)[1..] == s;
  }

  lemma OnePassName(rest: string)
    ensures OnePass(NAME + rest) == NAME + OnePass(rest)
  {
    assert NAME + rest == ['p'] + (['o'] + (['o'] + (['l'] + rest)));
    OnePassPlain('p', ['o'] + (['o'] + (['l'] + rest)));
    OnePassPlain('o', ['o'] + (['l'] + rest));
    OnePassPlain('o', ['l'] + rest);
    OnePassPlain('l', rest);
  }

  /** A run of any length goes, the name stays. */
  lemma {:induction false} OnePassDropsRun(n: nat, rest: string)
    ensures OnePass(Dollars(n) + ("pool" + rest)) == "pool" + OnePass(rest)
  {
    var s := Dollars(n) + (NAME + rest);
    if n == 0 {
      assert s == NAME + rest;
      OnePassName(rest);
    } else {
      assert s[1..] == Dollars(n - 1) + (NAME + rest);
      SkipDollarsOver(n, NAME + rest);
      OnePassDropsRun(n - 1, rest);
    }
  }

  lemma {:induction false} SkipDollarsSplits(s: string) returns (n: nat)
    ensures s == Dollars(n) + SkipDollars(s)
    ensures SkipDollars(s) != "" ==> SkipDollars(s)[0] != '$'
    ensures s != "" && s[0] == '$' ==> n > 0
  {
    if s != "" && s[0] == '$' {
      var k := SkipDollarsSplits(s[1..]);
      n := k + 1;
      assert s == "$" + s[1..];
    } else {
      n := 0;
      assert s == Dollars(0) + s;
    }
  }

  lemma {:induction false} LastDollar(n: nat)
    ensures |Dollars(n)| == n && forall i :: 0 <= i < n ==> Dollars(n)[i] == '$'
  {
    if n == 0 {
    } else {
      LastDollar(n - 1);
    }
  }

  lemma DoomedHasToken(s: string)
    requires Doomed(s)
    ensures HasToken(s)
  {
    var n := SkipDollarsSplits(s);
    LastDollar(n);
    var rest := SkipDollars(s);
    assert s[n - 1..n - 1 + |TOKEN|] == TOKEN by {
      assert s[n - 1] == '$';
      assert s[n..n + 4] == rest[..4];
    }
    assert TokenAt(s, n - 1);
  }

  /** Text without the token has nothing to delete. */
  lemma {:induction false} OnePassKeeps(s: string)
    requires !HasToken(s)
    ensures OnePass(s) == s
  {
    if s == "" {
    } else {
      assert FindToken(s) == 1 + FindToken(s[1..]);
      OnePassKeeps(s[1..]);
      if Doomed(s) {
        DoomedHasToken(s);
      }
      assert s == [s[0]] + s[1..];
    }
  }

  /** Replacing a token somewhere does not change what is doomed before it. */
  lemma {:induction false} SameDoom(a: string, b: string)
    ensures NAME <= SkipDollars(a + TOKEN + b) <==> NAME <= SkipDollars(a + NAME + b)
  {
    var s, t := a + TOKEN + b, a + NAME + b;
    if a == "" {
      assert s == "$" + (NAME + b) && t == NAME + b;
      assert s[1..] == NAME + b;
    } else if a[0] == '$' {
      assert s[1..] == a[1..] + TOKEN + b && t[1..] == a[1..] + NAME + b;
      SameDoom(a[1..], b);
    } else {
      assert SkipDollars(s) == s && SkipDollars(t) == t;
      if |a| >= 4 {
        assert s[..4] == t[..4];
      } else {
        assert s[|a|] == '$' && t[|a|] == 'p';
        assert NAME[|a|] == ['p', 'o', 'o', 'l'][|a|];
      }
    }
  }

  /** One turn of the loop does not change what the one pass yields. */
  lemma {:induction false} ReplaceKeepsOnePass(a: string, b: string)
    ensures OnePass(a + TOKEN + b) == OnePass(a + NAME + b)
  {
    var s, t := a + TOKEN + b, a + NAME + b;
    if a == "" {
      assert Dollars(1) == "$" + Dollars(0);
      assert s == Dollars(1) + (NAME + b) && t == Dollars(0) + (NAME + b);
      OnePassDropsRun(1, b);
      OnePassDropsRun(0, b);
    } else {
      assert s[1..] == a[1..] + TOKEN + b && t[1..] == a[1..] + NAME + b;
      SameDoom(a, b);
      ReplaceKeepsOnePass(a[1..], b);
    }
  }

  lemma ReplacedKeepsOnePass(s: string)
    requires HasToken(s)
    ensures OnePass(Replaced(s)) == OnePass(s)
  {
    var i := FindToken(s);
    assert s == s[..i] + TOKEN + s[i + |TOKEN|..];
    ReplaceKeepsOnePass(s[..i], s[i + |TOKEN|..]);
  }

  /** Within the buffer the loop computes the one-pass form. */
  lemma {:induction false} ShortIsOnePass(s: string)
    requires |s| <= MAX_KEY_VALUE_LEN
    ensures Expanded(s) == OnePass(s)
    decreases |s|
  {
    if HasToken(s) {
      ReplacedKeepsOnePass(s);
      ShortIsOnePass(Rewritten(s));
    } else {
      OnePassKeeps(s);
    }
  }

  // Longer strings lose text.

  function NonDollars(s: string): string {
    if s == "" then "" else (if s[0] == '$' then "" else [s[0]]) + NonDollars(s[1..])
  }

  lemma {:induction false} NonDollarsAppend(a: string, b: string)
    ensures NonDollars(a + b) == NonDollars(a) + NonDollars(b)
  {
    if a == "" {
      assert a + b == b;
    } else {
      assert (a + b)[1..] == a[1..] + b;
      NonDollarsAppend(a[1..], b);
    }
  }

  lemma {:induction false} OnePassKeepsNonDollars(s: string)
    ensures NonDollars(OnePass(s)) == NonDollars(s)
  {
    if s == "" {
    } else {
      OnePassKeepsNonDollars(s[1..]);
      NonDollarsAppend(if Doomed(s) then "" else [s[0]], OnePass(s[1..]));
      assert NonDollars([s[0]]) == if s[0] == '$' then "" else [s[0]] by {
        assert [s[0]][1..] == "";
      }
    }
  }

  lemma {:induction false} OnePassOfDollars(n: nat)
    ensures OnePass(Dollars(n)) == Dollars(n)
  {
    if n == 0 {
    } else {
      SkipDollarsOver(n, "");
      assert Dollars(n) + "" == Dollars(n);
      assert Dollars(n)[1..] == Dollars(n - 1);
      OnePassOfDollars(n - 1);
    }
  }

  lemma NameHasNoDollar(s: string, i: nat)
    requires i < |NAME|
    ensures i < |s| && s[i] == '$' ==> !(NAME <= s)
    ensures i >= |s| ==> !(NAME <= s)
  {
    assert i == 0 || i == 1 || i == 2 || i == 3;
  }

  lemma {:induction false} SkipBeforeDollars(x: string, n: nat)
    ensures NAME <= SkipDollars(x + Dollars(n)) <==> NAME <= SkipDollars(x)
  {
    LastDollar(n);
    if x == "" {
      SkipDollarsOver(n, "");
      assert Dollars(n) + "" == Dollars(n) == x + Dollars(n);
    } else if x[0] == '$' {
      assert (x + Dollars(n))[1..] == x[1..] + Dollars(n);
      SkipBeforeDollars(x[1..], n);
    } else {
      var s := x + Dollars(n);
      assert SkipDollars(s) == s && SkipDollars(x) == x;
      if |x| >= 4 {
        assert s[..4] == x[..4];
      } else {
        NameHasNoDollar(s, |x|);
      }
    }
  }

  lemma {:induction false} DollarsBehind(x: string, n: nat)
    ensures OnePass(x + Dollars(n)) == OnePass(x) + Dollars(n)
  {
    LastDollar(n);
    if x == "" {
      OnePassOfDollars(n);
      assert x + Dollars(n) == Dollars(n);
    } else {
      assert (x + Dollars(n))[1..] == x[1..] + Dollars(n);
      SkipBeforeDollars(x, n);
      DollarsBehind(x[1..], n);
    }
  }

  lemma {:induction false} NoNonDollars(t: string)
    requires NonDollars(t) == ""
    ensures t == Dollars(|t|)
  {
    if t == "" {
    } else {
      NoNonDollars(t[1..]);
    }
  }

  /** Cutting anything off the end changes what the one pass yields. */
  lemma CutChangesOnePass(x: string, t: string)
    requires t != ""
    ensures OnePass(x + t) != OnePass(x)
  {
    OnePassKeepsNonDollars(x);
    OnePassKeepsNonDollars(x + t);
    NonDollarsAppend(x, t);
    if NonDollars(t) == "" {
      NoNonDollars(t);
      DollarsBehind(x, |t|);
      LastDollar(|t|);
      assert |OnePass(x + t)| == |OnePass(x)| + |t|;
    }
  }

  lemma LongIsCut(s: string)
    requires HasToken(s) && |s| > MAX_KEY_VALUE_LEN
    ensures Expanded(s) != OnePass(s)
  {
    hide OnePass, FindToken;
    var r := Replaced(s);
    var x, t := r[..MAX_KEY_VALUE_LEN - 1], r[MAX_KEY_VALUE_LEN - 1..];
    assert r == x + t;
    assert Rewritten(s) == x;
    ReplacedKeepsOnePass(s);
    ShortIsOnePass(x);
    CutChangesOnePass(x, t);
  }

  /** The loop agrees with the one-pass form exactly on the strings that fit the buffer or
      need no rewriting; any other string is cut off. */
  lemma ExpandedIsOnePassIff(s: string)
    ensures Expanded(s) == OnePass(s) <==> !HasToken(s) || |s| <= 128
  {
    if !HasToken(s) {
      OnePassKeeps(s);
    } else if |s| <= MAX_KEY_VALUE_LEN {
      ShortIsOnePass(s);
    } else {
      LongIsCut(s);
    }
  }

  /** And in every case: the first token becomes `pool`, the text is cut to 127 characters, and the rest
      is the one-pass form. */
  lemma ExpandedInGeneral(a: string, b: string)
    requires forall i :: 0 <= i < |a| && a[i] == '$' ==> (a + "$pool" + b)[i..i + 5] != "$pool"
    ensures Expanded(a + "$pool" + b) == OnePass(Take(a + "pool" + b, 127))
  {
    var s := a + "$pool" + b;
    assert TokenAt(s, |a|) by {
      assert s[|a|..|a| + 5] == "$pool";
    }
    forall i | 0 <= i < |a|
      ensures !TokenAt(s, i)
    {
      assert i + 5 <= |s| && s[i] == a[i] && s[i..i + 5][0] == a[i];
    }
    assert FindToken(s) == |a|;
    assert s[..|a|] == a && s[|a| + 5..] == b;
    ShortIsOnePass(Rewritten(s));
  }
}
