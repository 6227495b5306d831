/** The 32-bit key hash of the dictionary. */
module Hash {

  /** The 32-bit word whose low eight bits are the given ones, lowest first. */
  function Pack(b0: bool, b1: bool, b2: bool, b3: bool, b4: bool, b5: bool, b6: bool, b7: bool): bv32 {
    (if b0 then 1 else 0) | (if b1 then 2 else 0) | (if b2 then 4 else 0) | (if b3 then 8 else 0) |
    (if b4 then 16 else 0) | (if b5 then 32 else 0) | (if b6 then 64 else 0) | (if b7 then 128 else 0)
  }

  /** The same word with its bit 7 copied into the 24 bits above it. */
  function SignExtend(b: bv32, negative: bool): bv32 {
    if negative then b | 0xFFFF_FF00 else b
  }

  /** `(unsigned)key[i]` for a signed 8-bit char: codes from 128 up are sign-extended. */
  function Widen(c: char): bv32 {
    var n0 := c as int;
    var n1 := n0 / 2;
    var n2 := n1 / 2;
    var n3 := n2 / 2;
    var n4 := n3 / 2;
    var n5 := n4 / 2;
    var n6 := n5 / 2;
    var n7 := n6 / 2;
    SignExtend(Pack(n0 % 2 == 1, n1 % 2 == 1, n2 % 2 == 1, n3 % 2 == 1,
                    n4 % 2 == 1, n5 % 2 == 1, n6 % 2 == 1, n7 % 2 == 1), n7 % 2 == 1)
  }

  function AddShift3(h: bv32): bv32 { h + (h << 3) }

  function AddShift10(h: bv32): bv32 { h + (h << 10) }

  function AddShift15(h: bv32): bv32 { h + (h << 15) }

  function XorShift6(h: bv32): bv32 { h ^ (h >> 6) }

  function XorShift11(h: bv32): bv32 { h ^ (h >> 11) }

  /** One turn of the loop. */
  function Round(h: bv32, k: bv32): bv32 {
    XorShift6(AddShift10(h + k))
  }

  /** The three steps after the loop. */
  function Finish(h: bv32): bv32 {
    AddShift15(XorShift11(AddShift3(h)))
  }

  function Rounds(h: bv32, key: string): bv32
    decreases key
  {
    if key == "" then h else Rounds(Round(h, Widen(key[0])), key[1..])
  }

  /** What dictionary_hash returns for a non-NULL key. */
  function HashOf(key: string): bv32 {
    Finish(Rounds(0, key))
  }

  method DictionaryHash(key: string) returns (hash: bv32)
    ensures hash == HashOf(key)
  {
    hide Widen, Round, Finish;
    hash := 0;
    var i := 0;
    while i < |key|
      invariant 0 <= i <= |key|
      invariant Rounds(hash, key[i..]) == Rounds(0, key)
    {
      assert key[i..][1..] == key[i + 1..];
      hash := Round(hash, Widen(key[i]));
      i := i + 1;
    }
    hash := Finish(hash);
  }

  // Every step has an explicit inverse: an odd multiplier modulo 2^32 is undone by its
  // reciprocal, a right shift folded in by exclusive-or by its telescoped sum.

  function UnAddShift3(y: bv32): bv32 { y * 0x38E3_8E39 }

  lemma AddShift3IsProduct(x: bv32)
    ensures AddShift3(x) == x * 9
  {
  }

  lemma AddShift3Undone(x: bv32)
    ensures UnAddShift3(AddShift3(x)) == x
  {
    hide AddShift3;
    AddShift3IsProduct(x);
  }

  function UnAddShift10(y: bv32): bv32 { y * 0xC00F_FC01 }

  lemma AddShift10IsProduct(x: bv32)
    ensures AddShift10(x) == x * 1025
  {
  }

  lemma AddShift10Undone(x: bv32)
    ensures UnAddShift10(AddShift10(x)) == x
  {
    hide AddShift10;
    AddShift10IsProduct(x);
  }

  function UnAddShift15(y: bv32): bv32 { y * 0x3FFF_8001 }

  lemma AddShift15IsProduct(x: bv32)
    ensures AddShift15(x) == x * 32769
  {
  }

  lemma AddShift15Undone(x: bv32)
    ensures UnAddShift15(AddShift15(x)) == x
  {
    hide AddShift15;
    AddShift15IsProduct(x);
  }

  function UnXorShift6(y: bv32): bv32 { y ^ (y >> 6) ^ (y >> 12) ^ (y >> 18) ^ (y >> 24) ^ (y >> 30) }

  lemma XorShift6Telescopes(x: bv32)
    ensures UnXorShift6(x ^ (x >> 6)) == x
  {
  }

  lemma XorShift6Undone(x: bv32)
    ensures UnXorShift6(XorShift6(x)) == x
  {
    hide UnXorShift6;
    XorShift6Telescopes(x);
  }

  function UnXorShift11(y: bv32): bv32 { y ^ (y >> 11) ^ (y >> 22) }

  lemma XorShift11Telescopes(x: bv32)
    ensures UnXorShift11(x ^ (x >> 11)) == x
  {
  }

  lemma XorShift11Undone(x: bv32)
    ensures UnXorShift11(XorShift11(x)) == x
  {
    hide UnXorShift11;
    XorShift11Telescopes(x);
  }

  /** A round loses nothing of the sum it starts from. */
  lemma RoundInjective(g: bv32, h: bv32, j: bv32, k: bv32)
    requires Round(g, j) == Round(h, k)
    ensures g + j == h + k
  {
    hide AddShift10, XorShift6, UnAddShift10, UnXorShift6;
    var a, b := g + j, h + k;
    XorShift6Undone(AddShift10(a));
    XorShift6Undone(AddShift10(b));
    AddShift10Undone(a);
    AddShift10Undone(b);
  }

  lemma FinishInjective(g: bv32, h: bv32)
    requires Finish(g) == Finish(h)
    ensures g == h
  {
    hide AddShift3, XorShift11, AddShift15, UnAddShift3, UnXorShift11, UnAddShift15;
    AddShift15Undone(XorShift11(AddShift3(g)));
    AddShift15Undone(XorShift11(AddShift3(h)));
    XorShift11Undone(AddShift3(g));
    XorShift11Undone(AddShift3(h));
    AddShift3Undone(g);
    AddShift3Undone(h);
  }

  lemma PackInjective(a0: bool, a1: bool, a2: bool, a3: bool, a4: bool, a5: bool, a6: bool, a7: bool,
                      b0: bool, b1: bool, b2: bool, b3: bool, b4: bool, b5: bool, b6: bool, b7: bool)
    requires SignExtend(Pack(a0, a1, a2, a3, a4, a5, a6, a7), a7) ==
             SignExtend(Pack(b0, b1, b2, b3, b4, b5, b6, b7), b7)
    ensures a0 == b0 && a1 == b1 && a2 == b2 && a3 == b3 && a4 == b4 && a5 == b5 && a6 == b6 && a7 == b7
  {
  }

  /** The `k` lowest binary digits agree. */
  ghost predicate SameDigits(m: nat, n: nat, k: nat) {
    k == 0 || ((m % 2 == 1) == (n % 2 == 1) && SameDigits(m / 2, n / 2, k - 1))
  }

  ghost function Power2(k: nat): nat {
    if k == 0 then 1 else 2 * Power2(k - 1)
  }

  lemma {:induction false} DigitsDetermine(m: nat, n: nat, k: nat)
    requires m < Power2(k) && n < Power2(k)
    requires SameDigits(m, n, k)
    ensures m == n
  {
    if k == 0 {
    } else {
      DigitsDetermine(m / 2, n / 2, k - 1);
    }
  }

  /** Equal widened words have equal binary digits. */
  lemma WidenDigits(c: char, d: char)
    requires Widen(c) == Widen(d)
    ensures SameDigits(c as int, d as int, 8)
  {
    hide Pack, SignExtend;
    var m0, n0 := c as int, d as int;
    var m1, n1 := m0 / 2, n0 / 2;
    var m2, n2 := m1 / 2, n1 / 2;
    var m3, n3 := m2 / 2, n2 / 2;
    var m4, n4 := m3 / 2, n3 / 2;
    var m5, n5 := m4 / 2, n4 / 2;
    var m6, n6 := m5 / 2, n5 / 2;
    var m7, n7 := m6 / 2, n6 / 2;
    PackInjective(m0 % 2 == 1, m1 % 2 == 1, m2 % 2 == 1, m3 % 2 == 1,
                  m4 % 2 == 1, m5 % 2 == 1, m6 % 2 == 1, m7 % 2 == 1,
                  n0 % 2 == 1, n1 % 2 == 1, n2 % 2 == 1, n3 % 2 == 1,
                  n4 % 2 == 1, n5 % 2 == 1, n6 % 2 == 1, n7 % 2 == 1);
    assert SameDigits(m7, n7, 1);
    assert SameDigits(m6, n6, 2);
    assert SameDigits(m5, n5, 3);
    assert SameDigits(m4, n4, 4);
    assert SameDigits(m3, n3, 5);
    assert SameDigits(m2, n2, 6);
    assert SameDigits(m1, n1, 7);
  }

  lemma WidenInjective(c: char, d: char)
    requires c as int < 256 && d as int < 256
    requires Widen(c) == Widen(d)
    ensures c == d
  {
    hide Widen;
    WidenDigits(c, d);
    assert Power2(8) == 256;
    DigitsDetermine(c as int, d as int, 8);
  }

  lemma SumLeftInjective(g: bv32, h: bv32, k: bv32)
    requires g + k == h + k
    ensures g == h
  {
  }

  /** Equal inputs to the rest of the key never merge two different hash states. */
  lemma {:induction false} RoundsInjective(g: bv32, h: bv32, key: string)
    requires Rounds(g, key) == Rounds(h, key)
    ensures g == h
    decreases key
  {
    hide Widen, Round;
    if key == "" {
    } else {
      var k := Widen(key[0]);
      RoundsInjective(Round(g, k), Round(h, k), key[1..]);
      RoundInjective(g, h, k, k);
      SumLeftInjective(g, h, k);
    }
  }

  lemma SumRightInjective(h: bv32, j: bv32, k: bv32)
    requires h + j == h + k
    ensures j == k
  {
  }

  lemma {:induction false} RoundsAppend(h: bv32, a: string, b: string)
    ensures Rounds(h, a + b) == Rounds(Rounds(h, a), b)
    decreases a
  {
    hide Widen, Round;
    if a == "" {
      assert a + b == b;
    } else {
      assert (a + b)[0] == a[0] && (a + b)[1..] == a[1..] + b;
      RoundsAppend(Round(h, Widen(a[0])), a[1..], b);
    }
  }

  /** Two keys of 8-bit characters that differ in exactly one place never share a hash. */
  lemma OneCharacterApart(s: string, t: string, p: nat)
    requires |s| == |t| && p < |s|
    requires s[p] != t[p]
    requires forall i :: 0 <= i < |s| && i != p ==> s[i] == t[i]
    requires s[p] as int < 256 && t[p] as int < 256
    ensures HashOf(s) != HashOf(t)
  {
    hide Widen, Round, Finish;
    if HashOf(s) == HashOf(t) {
      FinishInjective(Rounds(0, s), Rounds(0, t));
      var a, b := s[..p], s[p + 1..];
      assert t[..p] == a && t[p + 1..] == b;
      assert s == a + ([s[p]] + b) && t == a + ([t[p]] + b);
      var h := Rounds(0, a);
      RoundsAppend(0, a, [s[p]] + b);
      RoundsAppend(0, a, [t[p]] + b);
      assert ([s[p]] + b)[1..] == b && ([t[p]] + b)[1..] == b;
      RoundsInjective(Round(h, Widen(s[p])), Round(h, Widen(t[p])), b);
      RoundInjective(h, h, Widen(s[p]), Widen(t[p]));
      SumRightInjective(h, Widen(s[p]), Widen(t[p]));
      WidenInjective(s[p], t[p]);
    }
  }

  // The hash itself.

  lemma PackBits(b0: bool, b1: bool, b2: bool, b3: bool, b4: bool, b5: bool, b6: bool, b7: bool)
    ensures var w := SignExtend(Pack(b0, b1, b2, b3, b4, b5, b6, b7), b7);
            && (w & 1 != 0) == b0 && (w & 2 != 0) == b1 && (w & 4 != 0) == b2 && (w & 8 != 0) == b3
            && (w & 16 != 0) == b4 && (w & 32 != 0) == b5 && (w & 64 != 0) == b6 && (w & 128 != 0) == b7
            && w & 0xFFFF_FF00 == if b7 then 0xFFFF_FF00 else 0
  {
  }

  /** Bit by bit: the low eight bits are the binary digits of the character's code, and the other 24
      repeat its eighth. */
  lemma WidenIs(c: char)
    ensures var w, n := Widen(c), c as int;
            && (w & 1 != 0) == (n % 2 == 1) && (w & 2 != 0) == (n / 2 % 2 == 1)
            && (w & 4 != 0) == (n / 2 / 2 % 2 == 1) && (w & 8 != 0) == (n / 2 / 2 / 2 % 2 == 1)
            && (w & 16 != 0) == (n / 2 / 2 / 2 / 2 % 2 == 1) && (w & 32 != 0) == (n / 2 / 2 / 2 / 2 / 2 % 2 == 1)
            && (w & 64 != 0) == (n / 2 / 2 / 2 / 2 / 2 / 2 % 2 == 1)
            && (w & 128 != 0) == (n / 2 / 2 / 2 / 2 / 2 / 2 / 2 % 2 == 1)
            && w & 0xFFFF_FF00 == if w & 128 != 0 then 0xFFFF_FF00 else 0
  {
    hide Pack, SignExtend;
    var n0 := c as int;
    var n1 := n0 / 2;
    var n2 := n1 / 2;
    var n3 := n2 / 2;
    var n4 := n3 / 2;
    var n5 := n4 / 2;
    var n6 := n5 / 2;
    var n7 := n6 / 2;
    PackBits(n0 % 2 == 1, n1 % 2 == 1, n2 % 2 == 1, n3 % 2 == 1,
             n4 % 2 == 1, n5 % 2 == 1, n6 % 2 == 1, n7 % 2 == 1);
  }

  /** One more character is one more round. */
  lemma OneMoreCharacter(key: string, c: char)
    ensures Rounds(0, key + [c]) == Round(Rounds(0, key), Widen(c))
  {
    hide Widen, Round;
    RoundsAppend(0, key, [c]);
    assert [c][0] == c && [c][1..] == "";
  }

  lemma KnownWords()
    ensures Round(0, 0x61) == 0x1_8270 && Finish(0x1_8270) == 0xCA2E_9442
    ensures Round(0x1_8270, 0x62) == 0x614_F9F9 && Finish(0x614_F9F9) == 0x45E6_1E58
    ensures Round(0, 0xFFFF_FFE9) == 0xFC00_5D66 && Finish(0xFC00_5D66) == 0x4098_48FF
    ensures Finish(0) == 0
  {
  }

  lemma KnownCharacters()
    ensures Widen('a') == 0x61 && Widen('b') == 0x62 && Widen('\U{E9}') == 0xFFFF_FFE9
  {
  }

  /** Values of dictionary_hash, the last for a character above 127. */
  lemma KnownHashes()
    ensures HashOf("") == 0
    ensures HashOf("a") == 0xCA2E_9442 && HashOf("ab") == 0x45E6_1E58
    ensures HashOf("\U{E9}") == 0x4098_48FF
  {
    hide Widen, Round, Finish;
    KnownWords();
    KnownCharacters();
    assert "ab"[1..] == "b" && "b"[1..] == "" && "a"[1..] == "" && "\U{E9}"[1..] == "";
  }
}
