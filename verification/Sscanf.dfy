/** The part of sscanf the ini parser uses: blanks, literal characters and scansets,
    after section 7.21.6.2 of ISO/IEC 9899:2011. */
module Sscanf {
  import opened CText

  /** `Blanks` is white space in the format; `ScanSet` is `%[...]`, or `%[^...]` when negated. */
  datatype Directive = Blanks | Literal(c: char) | ScanSet(chars: set<char>, negated: bool)

  type Format = seq<Directive>

  predicate InSet(c: char, chars: set<char>, negated: bool) {
    (c in chars) != negated
  }

  /** The longest prefix made of characters of the scanset. */
  function Span(s: string, chars: set<char>, negated: bool): string {
    if s != "" && InSet(s[0], chars, negated) then [s[0]] + Span(s[1..], chars, negated) else ""
  }

  lemma {:induction false} SpanIsPrefix(s: string, chars: set<char>, negated: bool)
    ensures Span(s, chars, negated) <= s
    ensures forall c :: c in Span(s, chars, negated) ==> InSet(c, chars, negated)
  {
    if s == "" || !InSet(s[0], chars, negated) {
    } else {
      SpanIsPrefix(s[1..], chars, negated);
      assert s == [s[0]] + s[1..];
    }
  }

  lemma {:induction false} SpanUnique(a: string, b: string, chars: set<char>, negated: bool)
    requires forall i :: 0 <= i < |a| ==> InSet(a[i], chars, negated)
    requires b != "" ==> !InSet(b[0], chars, negated)
    ensures Span(a + b, chars, negated) == a
  {
    if a == "" {
      assert a + b == b;
    } else {
      assert (a + b)[1..] == a[1..] + b;
      SpanUnique(a[1..], b, chars, negated);
    }
  }

  /** The strings assigned, in order: conversion stops at the first directive that fails. */
  function Scan(fmt: Format, s: string): (got: seq<string>)
    ensures |got| <= |fmt|
    decreases fmt
  {
    if fmt == [] then
      []
    else
      match fmt[0]
      case Blanks => Scan(fmt[1..], LTrim(s))
      case Literal(c) => if s != "" && s[0] == c then Scan(fmt[1..], s[1..]) else []
      case ScanSet(chars, negated) =>
        var t := Span(s, chars, negated);
        if t == "" then [] else SpanIsPrefix(s, chars, negated); [t] + Scan(fmt[1..], s[|t|..])
  }

  lemma {:induction false} LTrimIsSuffix(s: string)
    ensures |LTrim(s)| <= |s| && LTrim(s) == s[|s| - |LTrim(s)|..]
  {
    if s == "" || !IsSpace(s[0]) {
    } else {
      LTrimIsSuffix(s[1..]);
    }
  }

  /** Nothing is stored that was not read: every assigned string is made of input characters. */
  lemma {:induction false} ScanBounded(fmt: Format, s: string, c: char)
    ensures forall i :: 0 <= i < |Scan(fmt, s)| ==> |Scan(fmt, s)[i]| <= |s|
    ensures Without(s, c) ==> forall i :: 0 <= i < |Scan(fmt, s)| ==> Without(Scan(fmt, s)[i], c)
    decreases fmt
  {
    if fmt == [] {
    } else {
      match fmt[0]
      case Blanks =>
        LTrimIsSuffix(s);
        ScanBounded(fmt[1..], LTrim(s), c);
      case Literal(d) =>
        if s != "" && s[0] == d {
          ScanBounded(fmt[1..], s[1..], c);
        }
      case ScanSet(chars, negated) =>
        var t := Span(s, chars, negated);
        SpanIsPrefix(s, chars, negated);
        if t != "" {
          ScanBounded(fmt[1..], s[|t|..], c);
          assert Without(s, c) ==> Without(t, c) by {
            assert forall i :: 0 <= i < |t| ==> t[i] == s[i];
          }
        }
    }
  }

  /** A key, an equals sign with optional blanks after it, then the rest of the format. */
  lemma ScanPair(tail: Format, k: string, rest: string)
    requires k != "" && Without(k, '=')
    ensures Scan([ScanSet({'='}, true), Blanks, Literal('='), Blanks] + tail, k + "=" + rest) ==
            [k] + Scan(tail, LTrim(rest))
  {
    var s := k + "=" + rest;
    var f1 := [Blanks, Literal('='), Blanks] + tail;
    var f2 := [Literal('='), Blanks] + tail;
    var f3 := [Blanks] + tail;
    var f := [ScanSet({'='}, true)] + f1;
    assert f == [ScanSet({'='}, true), Blanks, Literal('='), Blanks] + tail;
    assert s == k + ("=" + rest);
    SpanUnique(k, "=" + rest, {'='}, true);
    assert s[|k|..] == "=" + rest;
    assert f[1..] == f1 && f1[1..] == f2 && f2[1..] == f3 && f3[1..] == tail;
    assert ("=" + rest)[1..] == rest;
    assert LTrim("=" + rest) == "=" + rest;
    calc {
      Scan(f, s);
      [k] + Scan(f1, "=" + rest);
      [k] + Scan(f2, "=" + rest);
      [k] + Scan(f3, rest);
      [k] + Scan(tail, LTrim(rest));
    }
  }

  /** Without a key, or without an equals sign, no such format assigns two strings. */
  lemma ScanNoPair(tail: Format, s: string)
    requires Without(s, '=') || s[0] == '='
    ensures |Scan([ScanSet({'='}, true), Blanks, Literal('='), Blanks] + tail, s)| < 2
  {
    var f1 := [Blanks, Literal('='), Blanks] + tail;
    var f2 := [Literal('='), Blanks] + tail;
    var f := [ScanSet({'='}, true)] + f1;
    assert f == [ScanSet({'='}, true), Blanks, Literal('='), Blanks] + tail;
    assert f[1..] == f1 && f1[1..] == f2;
    if Without(s, '=') {
      SpanUnique(s, "", {'='}, true);
      assert s + "" == s && s[|s|..] == "";
      assert Scan(f1, "") == Scan(f2, "") == [];
    }
  }
}
