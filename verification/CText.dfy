/** C strings as values: a C string is the sequence of its characters before the
    terminating NUL, and `Option<string>` is a `char *` that may be NULL. */
module CText {

  datatype Option<+T> = None | Some(value: T)

  /** isspace in the C locale (section 7.4.1.10 of ISO/IEC 9899:2011):
      space, and the five characters from horizontal tab to carriage return. */
  predicate IsSpace(c: char) {
    c == ' ' || '\t' <= c <= '\r'
  }

  predicate IsDigit(c: char) {
    '0' <= c <= '9'
  }

  /** tolower in the C locale. */
  function ToLower(c: char): char {
    if 'A' <= c <= 'Z' then ((c as int) + 32) as char else c
  }

  /** The six blanks. */
  lemma SpaceIs(c: char)
    ensures IsSpace(c) <==> c as int in {9, 10, 11, 12, 13, 32}
  {
  }

  /** The 26 capital letters become the 26 small ones, and nothing else changes. */
  lemma ToLowerIs(i: nat, c: char)
    requires i < 26
    ensures ToLower("ABCDEFGHIJKLMNOPQRSTUVWXYZ"[i]) == "abcdefghijklmnopqrstuvwxyz"[i]
    ensures (c as int < 65 || c as int > 90) ==> ToLower(c) == c
  {
  }

  function Lower(s: string): string {
    seq(|s|, i requires 0 <= i < |s| => ToLower(s[i]))
  }

  /** At most `n` characters of `s`. */
  function Take(s: string, n: nat): string {
    if |s| <= n then s else s[..n]
  }

  ghost predicate Blank(s: string) {
    forall i :: 0 <= i < |s| ==> IsSpace(s[i])
  }

  /** Neither end of `s` is a blank. */
  ghost predicate Trimmed(s: string) {
    s != "" ==> !IsSpace(s[0]) && !IsSpace(s[|s| - 1])
  }

  ghost predicate Without(s: string, c: char) {
    forall i :: 0 <= i < |s| ==> s[i] != c
  }

  function LTrim(s: string): string {
    if s != "" && IsSpace(s[0]) then LTrim(s[1..]) else s
  }

  function RTrim(s: string): string {
    if s != "" && IsSpace(s[|s| - 1]) then RTrim(s[..|s| - 1]) else s
  }

  function Strip(s: string): string {
    RTrim(LTrim(s))
  }

  lemma {:induction false} LTrimDropsBlanks(a: string, m: string)
    requires Blank(a)
    requires m == "" || !IsSpace(m[0])
    ensures LTrim(a + m) == m
  {
    if a == "" {
      assert a + m == m;
    } else {
      assert (a + m)[1..] == a[1..] + m;
      LTrimDropsBlanks(a[1..], m);
    }
  }

  lemma {:induction false} RTrimDropsBlanks(m: string, b: string)
    requires Blank(b)
    requires m == "" || !IsSpace(m[|m| - 1])
    ensures RTrim(m + b) == m
  {
    if b == "" {
      assert m + b == m;
    } else {
      var s := m + b;
      assert s[..|s| - 1] == m + b[..|b| - 1];
      assert s[|s| - 1] == b[|b| - 1];
      RTrimDropsBlanks(m, b[..|b| - 1]);
    }
  }

  lemma {:induction false} LTrimSplits(s: string) returns (a: string)
    ensures s == a + LTrim(s) && Blank(a)
    ensures LTrim(s) == "" || !IsSpace(LTrim(s)[0])
  {
    if s != "" && IsSpace(s[0]) {
      var a' := LTrimSplits(s[1..]);
      a := [s[0]] + a';
      assert s == [s[0]] + s[1..];
    } else {
      a := "";
    }
  }

  lemma {:induction false} RTrimSplits(s: string) returns (b: string)
    ensures s == RTrim(s) + b && Blank(b)
    ensures RTrim(s) == "" || !IsSpace(RTrim(s)[|RTrim(s)| - 1])
    ensures RTrim(s) <= s
  {
    if s != "" && IsSpace(s[|s| - 1]) {
      var b' := RTrimSplits(s[..|s| - 1]);
      b := b' + [s[|s| - 1]];
      assert s == s[..|s| - 1] + [s[|s| - 1]];
    } else {
      b := "";
      assert s == s + b;
    }
  }

  /** Stripping cuts blanks, and only blanks, off both ends. */
  lemma StripSplits(s: string) returns (a: string, b: string)
    ensures s == a + Strip(s) + b
    ensures Blank(a) && Blank(b) && Trimmed(Strip(s))
  {
    hide LTrim, RTrim;
    a := LTrimSplits(s);
    b := RTrimSplits(LTrim(s));
  }

  /** `Strip(s)` is the only trimmed text that leaves blanks on both sides. */
  lemma StripUnique(s: string, a: string, m: string, b: string)
    requires s == a + m + b
    requires Blank(a) && Blank(b) && Trimmed(m)
    ensures Strip(s) == m
  {
    if m == "" {
      assert s == a + b + "";
      LTrimDropsBlanks(a + b, "");
    } else {
      assert s == a + (m + b);
      LTrimDropsBlanks(a, m + b);
      RTrimDropsBlanks(m, b);
    }
  }

  lemma StripOfTrimmed(s: string)
    requires Trimmed(s)
    ensures Strip(s) == s
  {
    StripUnique(s, "", s, "");
  }

  lemma LastOfSum(a: string, b: string)
    ensures b != "" ==> (a + b)[|a + b| - 1] == b[|b| - 1]
  {
  }

  /** strchr(s, c) as an index: the first position of `c`, or the length. */
  function IndexOf(s: string, c: char): (n: nat)
    ensures n <= |s|
    ensures forall i :: 0 <= i < n ==> s[i] != c
    ensures n < |s| ==> s[n] == c
  {
    if s == "" || s[0] == c then 0 else 1 + IndexOf(s[1..], c)
  }

  lemma IndexOfUnique(s: string, c: char, n: nat)
    requires n <= |s|
    requires forall i :: 0 <= i < n ==> s[i] != c
    requires n < |s| ==> s[n] == c
    ensures IndexOf(s, c) == n
  {
  }
}
