/** Runes: utf8.DecodeRuneInString on strings of bytes, a byte being a char of that code. */
module Utf8 {

  const RUNE_ERROR: nat := 0xFFFD

  predicate Ascii(c: char) {
    c < 128 as char
  }

  /** Byte i of s is there and lies in this range. */
  predicate In(s: string, i: nat, low: nat, high: nat) {
    i < |s| && low <= s[i] as int <= high
  }

  /** The number of bytes of the first rune, by the byte ranges of well-formed UTF-8; 0 if there is none. */
  function Width(s: string): (w: nat)
    requires s != ""
    ensures w <= 4 && w <= |s|
    ensures Ascii(s[0]) <==> w == 1
    ensures forall i :: 1 <= i < w ==> 0x80 <= s[i] as int <= 0xBF
  {
    var b := s[0] as int;
    if b < 0x80 then 1
    else if 0xC2 <= b <= 0xDF then
      if In(s, 1, 0x80, 0xBF) then 2 else 0
    else if 0xE0 <= b <= 0xEF then
      if In(s, 1, if b == 0xE0 then 0xA0 else 0x80, if b == 0xED then 0x9F else 0xBF) && In(s, 2, 0x80, 0xBF) then 3 else 0
    else if 0xF0 <= b <= 0xF4 then
      if In(s, 1, if b == 0xF0 then 0x90 else 0x80, if b == 0xF4 then 0x8F else 0xBF)
         && In(s, 2, 0x80, 0xBF) && In(s, 3, 0x80, 0xBF) then 4 else 0
    else 0
  }

  /** The first rune: a byte that begins none is an error of width 1. */
  function Rune(s: string): nat
    requires s != ""
  {
    var b := s[0] as int;
    var w := Width(s);
    if w == 0 then RUNE_ERROR
    else if w == 1 then b
    else if w == 2 then 64 * (b - 0xC0) + (s[1] as int - 0x80)
    else if w == 3 then 4096 * (b - 0xE0) + 64 * (s[1] as int - 0x80) + (s[2] as int - 0x80)
    else 262144 * (b - 0xF0) + 4096 * (s[1] as int - 0x80) + 64 * (s[2] as int - 0x80) + (s[3] as int - 0x80)
  }

  /** What DecodeRuneInString returns as the size. */
  function Size(s: string): (n: nat)
    requires s != ""
    ensures 0 < n <= |s|
  {
    if Width(s) == 0 then 1 else Width(s)
  }

  function Runes(s: string): seq<nat> {
    if s == "" then [] else [Rune(s)] + Runes(s[Size(s)..])
  }

  /** utf8.ValidString */
  predicate ValidString(s: string) {
    s == "" || (Width(s) > 0 && ValidString(s[Width(s)..]))
  }

  /** The bytes of a code point below U+110000. */
  function Encoded(r: nat): string
    requires r < 0x110000
  {
    if r < 0x80 then [r as char]
    else if r < 0x800 then [(0xC0 + r / 64) as char, (0x80 + r % 64) as char]
    else if r < 0x10000 then [(0xE0 + r / 4096) as char, (0x80 + r / 64 % 64) as char, (0x80 + r % 64) as char]
    else [(0xF0 + r / 262144) as char, (0x80 + r / 4096 % 64) as char, (0x80 + r / 64 % 64) as char, (0x80 + r % 64) as char]
  }

  /** A well-formed rune is that of its bytes and of no others. */
  lemma RuneBytes(s: string)
    requires s != "" && Width(s) > 0
    ensures Rune(s) < 0x110000 && s[..Width(s)] == Encoded(Rune(s))
  {
    match Width(s)
    case 2 => TwoBytes(s);
    case 3 => ThreeBytes(s);
    case 4 => FourBytes(s);
    case _ =>
  }

  lemma TwoBytes(s: string)
    requires s != "" && Width(s) == 2
    ensures Rune(s) < 0x800 && s[..2] == Encoded(Rune(s))
  {
    var a, b := s[0] as int - 0xC0, s[1] as int - 0x80;
    assert Rune(s) == 64 * a + b;
    assert s[..2] == [s[0], s[1]];
    Digits2(a, b);
  }

  lemma ThreeBytes(s: string)
    requires s != "" && Width(s) == 3
    ensures Rune(s) < 0x10000 && s[..3] == Encoded(Rune(s))
  {
    var a, b, c := s[0] as int - 0xE0, s[1] as int - 0x80, s[2] as int - 0x80;
    assert Rune(s) == 4096 * a + 64 * b + c && (a > 0 || b >= 0x20);
    assert s[..3] == [s[0], s[1], s[2]];
    hide Rune, Width;
    Digits3(a, b, c);
  }

  lemma FourBytes(s: string)
    requires s != "" && Width(s) == 4
    ensures Rune(s) < 0x110000 && s[..4] == Encoded(Rune(s))
  {
    var a, b, c, d := s[0] as int - 0xF0, s[1] as int - 0x80, s[2] as int - 0x80, s[3] as int - 0x80;
    assert Rune(s) == 262144 * a + 4096 * b + 64 * c + d && (a > 0 || b >= 0x10) && (a < 4 || b < 0x10);
    assert s[..4] == [s[0], s[1], s[2], s[3]];
    hide Rune, Width;
    Digits4(a, b, c, d);
  }

  lemma Digits2(a: nat, b: nat)
    requires b < 64
    ensures (64 * a + b) / 64 == a && (64 * a + b) % 64 == b
  {
  }

  lemma Digits3(a: nat, b: nat, c: nat)
    requires b < 64 && c < 64
    ensures var r := 4096 * a + 64 * b + c; r / 4096 == a && r / 64 % 64 == b && r % 64 == c
  {
    Digits2(64 * a + b, c);
    Digits2(a, b);
  }

  lemma Digits4(a: nat, b: nat, c: nat, d: nat)
    requires b < 64 && c < 64 && d < 64
    ensures var r := 262144 * a + 4096 * b + 64 * c + d; r / 262144 == a && r / 4096 % 64 == b && r / 64 % 64 == c && r % 64 == d
  {
    Digits2(4096 * a + 64 * b + c, d);
    Digits3(a, b, c);
  }

  // ----- Valid strings -----

  /** A code point that is no surrogate. */
  predicate Scalar(r: nat) {
    r < 0xD800 || 0xE000 <= r < 0x110000
  }

  predicate AllScalar(rs: seq<nat>) {
    forall i :: 0 <= i < |rs| ==> Scalar(rs[i])
  }

  function EncodedAll(rs: seq<nat>): string
    requires AllScalar(rs)
  {
    if rs == [] then ""
    else
      assert Scalar(rs[0]);
      Encoded(rs[0]) + EncodedAll(rs[1..])
  }

  /** The bytes of a scalar value are read as it, whatever follows. */
  lemma ScalarBack(r: nat, rest: string)
    requires Scalar(r)
    ensures var s := Encoded(r) + rest; Width(s) == |Encoded(r)| && Rune(s) == r && s[Width(s)..] == rest
  {
    var s := Encoded(r) + rest;
    assert s[|Encoded(r)|..] == rest;
    if r < 0x80 {
    } else if r < 0x800 {
      ScalarDigits(r);
    } else if r < 0x10000 {
      ThreeBack(r, s);
    } else {
      FourBack(r, s);
    }
  }

  lemma ScalarDigits(r: nat)
    ensures r == 64 * (r / 64) + r % 64
    ensures r == 4096 * (r / 4096) + 64 * (r / 64 % 64) + r % 64
    ensures r == 262144 * (r / 262144) + 4096 * (r / 4096 % 64) + 64 * (r / 64 % 64) + r % 64
  {
    assert r / 4096 == r / 64 / 64 && r / 262144 == r / 4096 / 64;
  }

  lemma ThreeBack(r: nat, s: string)
    requires Scalar(r) && 0x800 <= r < 0x10000 && |s| >= 3 && s[..3] == Encoded(r)
    ensures Width(s) == 3 && Rune(s) == r
  {
    ScalarDigits(r);
    assert s[0] == s[..3][0] && s[1] == s[..3][1] && s[2] == s[..3][2];
    hide Encoded;
  }

  lemma FourBack(r: nat, s: string)
    requires 0x10000 <= r < 0x110000 && |s| >= 4 && s[..4] == Encoded(r)
    ensures Width(s) == 4 && Rune(s) == r
  {
    ScalarDigits(r);
    assert s[0] == s[..4][0] && s[1] == s[..4][1] && s[2] == s[..4][2] && s[3] == s[..4][3];
    hide Encoded;
  }

  lemma RuneIsScalar(s: string)
    requires s != "" && Width(s) > 0
    ensures Scalar(Rune(s))
  {
  }

  /** A valid string is the encoding of its runes. */
  lemma {:induction false} ValidIsEncoded(s: string) returns (rs: seq<nat>)
    requires ValidString(s)
    ensures AllScalar(rs) && s == EncodedAll(rs)
    decreases |s|
  {
    hide Width, Rune, Encoded;
    if s == "" {
      rs := [];
    } else {
      RuneBytes(s);
      RuneIsScalar(s);
      var more := ValidIsEncoded(s[Width(s)..]);
      rs := [Rune(s)] + more;
      assert s == s[..Width(s)] + s[Width(s)..];
      assert rs[1..] == more;
    }
  }

  lemma {:induction false} EncodedIsValid(rs: seq<nat>)
    requires AllScalar(rs)
    ensures ValidString(EncodedAll(rs)) && Runes(EncodedAll(rs)) == rs
  {
    hide Width, Rune, Encoded;
    if rs != [] {
      ScalarBack(rs[0], EncodedAll(rs[1..]));
      EncodedIsValid(rs[1..]);
      SomeByte(rs[0]);
    }
  }

  lemma SomeByte(r: nat)
    requires Scalar(r)
    ensures Encoded(r) != ""
  {
  }

  /** A string is valid exactly if it is the encoding of some scalar values, one after the other. */
  lemma ValidExactly(s: string)
    ensures ValidString(s) <==> exists rs :: AllScalar(rs) && EncodedAll(rs) == s
  {
    hide ValidString, EncodedAll, AllScalar;
    if ValidString(s) {
      var rs := ValidIsEncoded(s);
    }
    forall rs | AllScalar(rs) && EncodedAll(rs) == s
      ensures ValidString(s)
    {
      EncodedIsValid(rs);
    }
  }
}
