/**
 The short escapes the printer does without: a text with every \u0008 replaced by \b
 and every \u000c by \f means the same, and is the shortest there is for a print.
 */
module JsonSqueeze {
  import opened Decimals
  import opened JsonParser
  import opened Options
  import opened Utf8

  /** An escape at the start of s that has a short form. */
  predicate HasShort(s: string) {
    |s| >= 6 && s[0] == '\\' && (s[1..6] == "u0008" || s[1..6] == "u000c")
  }

  /** The text with short escapes; an escape is the backslash and the character behind it. */
  function Squeeze(s: string): (r: string)
    ensures |r| <= |s|
    ensures s != "" ==> r != "" && r[0] == s[0]
  {
    if s == "" then ""
    else if s[0] != '\\' then [s[0]] + Squeeze(s[1..])
    else if HasShort(s) then ['\\', if s[5] == '8' then 'b' else 'f'] + Squeeze(s[6..])
    else if |s| == 1 then s
    else s[..2] + Squeeze(s[2..])
  }

  /** Squeeze for a result. */
  function Squeezed<T>(r: Option<Parsed<T>>): Option<Parsed<T>> {
    if r.None? then None else Some(Parsed(r.value.value, Squeeze(r.value.rest)))
  }

  lemma SqueezeStep(s: string)
    requires s != "" && s[0] != '\\'
    ensures Squeeze(s) == [s[0]] + Squeeze(s[1..]) && Squeeze(s)[1..] == Squeeze(s[1..])
  {
  }

  predicate NoBackslash(p: string) {
    forall i :: 0 <= i < |p| ==> p[i] != '\\'
  }

  /** A part without backslash stays. */
  lemma {:induction false} SqueezeBehind(p: string, t: string)
    requires NoBackslash(p)
    ensures Squeeze(p + t) == p + Squeeze(t)
  {
    hide Squeeze;
    if p == "" {
      assert p + t == t && p + Squeeze(t) == Squeeze(t);
    } else {
      SqueezeBehind(p[1..], t);
      assert (p + t)[1..] == p[1..] + t;
      SqueezeStep(p + t);
      assert p == [p[0]] + p[1..];
    }
  }

  /** The same, of the first n characters of s. */
  lemma SqueezeDrop(s: string, n: nat)
    requires n <= |s| && NoBackslash(s[..n])
    ensures n <= |Squeeze(s)| && Squeeze(s)[..n] == s[..n] && Squeeze(s)[n..] == Squeeze(s[n..])
  {
    hide Squeeze;
    assert s == s[..n] + s[n..];
    SqueezeBehind(s[..n], s[n..]);
  }

  lemma {:induction false} SkipSqueezed(s: string)
    ensures SkipWhite(Squeeze(s)) == Squeeze(SkipWhite(s))
  {
    if s != "" && IsWhite(s[0]) {
      SkipSqueezed(s[1..]);
      SqueezeStep(s);
    }
  }

  lemma ExpectSqueezed(s: string, c: char)
    requires c != '\\'
    ensures Expect(Squeeze(s), c) == if Expect(s, c).None? then None else Some(Squeeze(Expect(s, c).value))
  {
    hide Squeeze;
    SkipSqueezed(s);
    var t := SkipWhite(s);
    EmptySqueezed();
    if t != "" && t[0] == c {
      SqueezeStep(t);
    }
  }

  lemma EmptySqueezed()
    ensures Squeeze("") == ""
  {
  }

  // ----- Strings -----

  /** What the first characters of an escape are, and what it becomes. */
  lemma SqueezeEscape(s: string)
    requires |s| >= 2 && s[0] == '\\'
    ensures Squeeze(s)[0] == '\\' && |Squeeze(s)| >= 2
    ensures HasShort(s) ==> Squeeze(s)[1..] == [if s[5] == '8' then 'b' else 'f'] + Squeeze(s[6..])
    ensures !HasShort(s) ==> Squeeze(s)[1..] == [s[1]] + Squeeze(s[2..])
  {
    if HasShort(s) {
      var c, t := if s[5] == '8' then 'b' else 'f', Squeeze(s[6..]);
      hide HasShort;
      assert Squeeze(s) == ['\\', c] + t;
      SecondOf(c, t);
    } else {
      var t := Squeeze(s[2..]);
      hide HasShort;
      assert s[..2] == ['\\', s[1]];
      assert Squeeze(s) == ['\\', s[1]] + t;
      SecondOf(s[1], t);
    }
  }

  lemma SecondOf(c: char, t: string)
    ensures (['\\', c] + t)[0] == '\\' && (['\\', c] + t)[1..] == [c] + t
  {
  }

  lemma FourDigits(s: string)
    requires |s| >= 4 && Hex4(s).Some?
    ensures NoBackslash(s[..4])
  {
  }

  lemma ShortRead(s: string, c: char, rest: string)
    requires HasShort(s) && c == if s[5] == '8' then 'b' else 'f'
    ensures ParseEscape(s[1..]) == Some(Parsed([(if s[5] == '8' then 8 else 12) as char], s[6..]))
    ensures ParseEscape([c] + rest) == Some(Parsed([(if s[5] == '8' then 8 else 12) as char], rest))
  {
    var t := s[1..];
    assert t[..5] == s[1..6];
    assert t[0] == 'u' && t[1] == '0' && t[2] == '0' && t[3] == '0' && t[4] == s[5] && (s[5] == '8' || s[5] == 'c');
    assert t[5..] == s[6..];
    assert t[1..][0] == '0' && t[1..][1] == '0' && t[1..][2] == '0' && t[1..][3] == s[5];
    assert ([c] + rest)[1..] == rest;
  }

  /** Escapes of two characters, and of six. */
  lemma PlainEscapeRead(c: char, t: string, t': string)
    requires ParseEscape([c] + t).Some?
    requires c == 'u' ==> |t'| >= 4 && t'[..4] == t[..4]
    ensures c != 'u' ==>
      && ParseEscape([c] + t).value.rest == t
      && ParseEscape([c] + t') == Some(Parsed(ParseEscape([c] + t).value.value, t'))
    ensures c == 'u' ==> |t| >= 4 && ParseEscape([c] + t).value.rest == t[4..]
    ensures c == 'u' ==> ParseEscape([c] + t') == Some(Parsed(ParseEscape([c] + t).value.value, t'[4..]))
  {
    hide Encoded;
    var s, s' := [c] + t, [c] + t';
    assert s[1..] == t && s'[1..] == t';
    if c == 'u' {
      assert s[5..] == t[4..] && s'[5..] == t'[4..];
      assert t[0] == t[..4][0] && t[1] == t[..4][1] && t[2] == t[..4][2] && t[3] == t[..4][3];
      assert t'[0] == t'[..4][0] && t'[1] == t'[..4][1] && t'[2] == t'[..4][2] && t'[3] == t'[..4][3];
    }
  }

  lemma HexStart(t: string)
    requires ParseEscape(['u'] + t).Some?
    ensures |t| >= 4 && Hex4(t).Some?
  {
    assert (['u'] + t)[1..] == t;
  }

  /** An escape is read as the same characters in its short form. */
  lemma EscapeSqueezed(s: string)
    requires s != "" && s[0] == '\\' && ParseEscape(s[1..]).Some?
    ensures |Squeeze(s)| > 1 && ParseEscape(Squeeze(s)[1..]) == Squeezed(ParseEscape(s[1..]))
  {
    NoEscape();
    hide ParseEscape, Squeeze, HasShort, Hex4;
    SqueezeEscape(s);
    if HasShort(s) {
      SixChars(s);
      ShortRead(s, if s[5] == '8' then 'b' else 'f', Squeeze(s[6..]));
    } else {
      var c, t := s[1], s[2..];
      assert s[1..] == [c] + t;
      if c == 'u' {
        HexStart(t);
        FourDigits(t);
        SqueezeDrop(t, 4);
      }
      PlainEscapeRead(c, t, Squeeze(t));
    }
  }

  lemma SixChars(s: string)
    requires HasShort(s)
    ensures |s| >= 6
  {
  }

  lemma NoEscape()
    ensures ParseEscape("") == None
  {
  }

  lemma {:induction false} CharsSqueezed(s: string)
    requires ParseChars(s).Some?
    ensures ParseChars(Squeeze(s)) == Squeezed(ParseChars(s))
    decreases |s|
  {
    hide Squeeze, ParseEscape;
    if s[0] == '"' {
      SqueezeStep(s);
    } else if s[0] == '\\' {
      EscapeSqueezed(s);
      CharsSqueezed(ParseEscape(s[1..]).value.rest);
    } else {
      SqueezeStep(s);
      CharsSqueezed(s[1..]);
    }
  }

  // ----- Numbers -----

  lemma {:induction false} DigitsSqueezed(s: string)
    ensures Digits(Squeeze(s)) == Digits(s)
    ensures NoBackslash(s[..Digits(s)])
  {
    hide Squeeze;
    EmptySqueezed();
    if s != "" && IsDigit(s[0]) {
      DigitsSqueezed(s[1..]);
      SqueezeStep(s);
    }
  }

  lemma FractionSqueezed(s: string)
    ensures Fraction(Squeeze(s)) == Fraction(s)
    ensures NoBackslash(s[..Fraction(s)])
  {
    hide Squeeze, Digits;
    EmptySqueezed();
    if s != "" && s[0] == '.' {
      SqueezeStep(s);
      DigitsSqueezed(s[1..]);
    }
  }

  lemma NothingTaken(s: string)
    ensures NoBackslash(s[..0])
  {
  }

  lemma FirstPlain(s: string, n: nat)
    requires n <= |s| && forall i :: 0 <= i < n ==> s[i] != '\\'
    ensures NoBackslash(s[..n])
  {
  }

  lemma AndDigitsSqueezed(s: string, n: nat)
    requires n <= |s| && NoBackslash(s[..n])
    ensures n <= |Squeeze(s)| && AndDigits(Squeeze(s), n) == AndDigits(s, n)
    ensures NoBackslash(s[..AndDigits(s, n)])
  {
    hide Squeeze, NoBackslash, IsDigit;
    NothingTaken(s);
    SqueezeDrop(s, n);
    DigitsSqueezed(s[n..]);
    TwoParts(s, n, Digits(s[n..]));
  }

  lemma ExponentSqueezed(s: string)
    ensures Exponent(Squeeze(s)) == Exponent(s)
    ensures NoBackslash(s[..Exponent(s)])
  {
    hide Squeeze, AndDigits, NoBackslash;
    EmptySqueezed();
    NothingTaken(s);
    if s != "" && (s[0] == 'e' || s[0] == 'E') {
      SqueezeStep(s);
      var t := s[1..];
      assert |s| > 1 ==> Squeeze(s)[1] == Squeeze(t)[0] == s[1];
      if |s| > 1 && (s[1] == '+' || s[1] == '-') {
        FirstPlain(s, 2);
        AndDigitsSqueezed(s, 2);
      } else {
        FirstPlain(s, 1);
        AndDigitsSqueezed(s, 1);
      }
    }
  }

  lemma IntLengthSqueezed(s: string)
    ensures IntLength(Squeeze(s)) == IntLength(s)
    ensures NoBackslash(s[..IntLength(s)])
  {
    hide Squeeze, Digits;
    EmptySqueezed();
    DigitsSqueezed(s);
  }

  /** Parts without backslash, one behind the other. */
  lemma TwoParts(s: string, n: nat, k: nat)
    requires n + k <= |s| && NoBackslash(s[..n]) && NoBackslash(s[n..][..k])
    ensures NoBackslash(s[..n + k]) && s[n..][k..] == s[n + k..]
  {
    assert s[..n + k] == s[..n] + s[n..][..k];
  }

  /** The lengths of the parts of a number without its sign: integer, fraction, exponent. */
  function PartLengths(t: string): (r: (nat, nat, nat))
    ensures r.0 + r.1 + r.2 <= |t|
  {
    var n := IntLength(t);
    var f := Fraction(t[n..]);
    (n, f, Exponent(t[n + f..]))
  }

  lemma IntAndFraction(t: string)
    ensures var n := IntLength(t);
            && IntLength(Squeeze(t)) == n && n <= |Squeeze(t)| && NoBackslash(t[..n])
            && Fraction(Squeeze(t)[n..]) == Fraction(t[n..]) && NoBackslash(t[..n + Fraction(t[n..])])
  {
    hide Squeeze, IntLength, Fraction, NoBackslash, IsDigit;
    IntLengthSqueezed(t);
    var n := IntLength(t);
    SqueezeDrop(t, n);
    var u := t[n..];
    FractionSqueezed(u);
    TwoParts(t, n, Fraction(u));
  }

  lemma PartsSqueezed(t: string)
    ensures PartLengths(Squeeze(t)) == PartLengths(t)
    ensures var (n, f, e) := PartLengths(t);
            NoBackslash(t[..n]) && NoBackslash(t[..n + f + e])
  {
    hide Squeeze, IntLength, Fraction, Exponent, NoBackslash, IsDigit;
    IntAndFraction(t);
    var k := IntLength(t) + Fraction(t[IntLength(t)..]);
    SqueezeDrop(t, k);
    var w := t[k..];
    ExponentSqueezed(w);
    TwoParts(t, k, Exponent(w));
  }

  /** A number from the lengths of its parts: its sign, its digits, all of it, and what follows. */
  function NumberOf(minus: nat, lengths: (nat, nat, nat), digits: string, text: string,
                    short: string, long: string): Option<Parsed<Json>>
    requires forall i :: 0 <= i < |digits| ==> IsDigit(digits[i])
  {
    var (n, f, e) := lengths;
    if n == 0 then None
    else if f + e > 0 then Some(Parsed(JReal(text), long))
    else
      var k: int := Number(digits);
      Some(Parsed(JInt(if minus == 1 then -k else k), short))
  }

  lemma NumberByParts(s: string, minus: nat)
    requires minus == if s != "" && s[0] == '-' then 1 else 0
    ensures var t := s[minus..];
            var (n, f, e) := PartLengths(t);
            && (forall i :: 0 <= i < n ==> IsDigit(t[..n][i]))
            && ParseNumber(s) == NumberOf(minus, PartLengths(t), t[..n], s[..minus + (n + f + e)], t[n..], t[n + f + e..])
  {
    hide Fraction, Exponent, Number, IsDigit;
  }

  /** A number with its sign stays. */
  lemma SignedText(s: string, minus: nat, k: nat)
    requires minus == (if s != "" && s[0] == '-' then 1 else 0) && minus + k <= |s| && NoBackslash(s[minus..][..k])
    ensures minus + k <= |Squeeze(s)| && Squeeze(s)[..minus + k] == s[..minus + k]
    ensures Squeeze(s)[minus..] == Squeeze(s[minus..])
  {
    hide Squeeze, NoBackslash;
    Minus(s, minus);
    SqueezeDrop(s, minus);
    TwoParts(s, minus, k);
    SqueezeDrop(s, minus + k);
  }

  /** The parts of a number are the same with short escapes, and what follows them is squeezed. */
  lemma UnsignedParts(t: string)
    ensures var l := PartLengths(t);
            var k := l.0 + l.1 + l.2;
            && PartLengths(Squeeze(t)) == l && k <= |Squeeze(t)| && NoBackslash(t[..k])
            && Squeeze(t)[..l.0] == t[..l.0] && Squeeze(t)[l.0..] == Squeeze(t[l.0..]) && Squeeze(t)[k..] == Squeeze(t[k..])
  {
    hide Squeeze, PartLengths, NoBackslash;
    var l := PartLengths(t);
    PartsSqueezed(t);
    SqueezeDrop(t, l.0);
    SqueezeDrop(t, l.0 + l.1 + l.2);
  }

  lemma NumberSqueezed(s: string)
    requires ParseNumber(s).Some?
    ensures ParseNumber(Squeeze(s)) == Squeezed(ParseNumber(s))
  {
    hide *;
    var minus := if s != "" && s[0] == '-' then 1 else 0;
    SqueezeFirst(s);
    var t := s[minus..];
    var l := PartLengths(t);
    UnsignedParts(t);
    SignedText(s, minus, l.0 + l.1 + l.2);
    NumberByParts(s, minus);
    NumberByParts(Squeeze(s), minus);
    NumberOfSqueezed(minus, l, t[..l.0], s[..minus + (l.0 + l.1 + l.2)], t[l.0..], t[l.0 + l.1 + l.2..]);
  }

  lemma SqueezeFirst(s: string)
    ensures (s != "" && s[0] == '-') == (Squeeze(s) != "" && Squeeze(s)[0] == '-')
  {
  }

  lemma NumberOfSqueezed(minus: nat, lengths: (nat, nat, nat), digits: string, text: string, short: string, long: string)
    requires forall i :: 0 <= i < |digits| ==> IsDigit(digits[i])
    ensures NumberOf(minus, lengths, digits, text, Squeeze(short), Squeeze(long))
         == Squeezed(NumberOf(minus, lengths, digits, text, short, long))
  {
    hide Squeeze, Number;
  }

  lemma Minus(s: string, minus: nat)
    requires minus == if s != "" && s[0] == '-' then 1 else 0
    ensures NoBackslash(s[..minus])
  {
  }

  // ----- Values -----

  lemma WordSqueezed(s: string, word: string, v: Json)
    requires word != "" && NoBackslash(word) && Word(s, word, v).Some?
    ensures Word(Squeeze(s), word, v) == Squeezed(Word(s, word, v))
  {
    hide Squeeze;
    assert s[..|word|] == word;
    SqueezeDrop(s, |word|);
  }

  /** A text with short escapes is read as the same value, up to the same place. */
  lemma {:induction false} ValueSqueezed(s: string)
    requires ParseValue(s).Some?
    ensures ParseValue(Squeeze(s)) == Squeezed(ParseValue(s))
    decreases |s|, 0
  {
    hide Squeeze, SkipWhite, ParseChars, ParseNumber, ParseElements, ParseMembers, Expect, Word;
    SkipSqueezed(s);
    var t := SkipWhite(s);
    SqueezeStart(t);
    if t[0] == '"' {
      CharsSqueezed(t[1..]);
    } else if t[0] == '[' {
      ExpectSqueezed(t[1..], ']');
      if Expect(t[1..], ']').None? {
        ElementsSqueezed(t[1..]);
      }
    } else if t[0] == '{' {
      ExpectSqueezed(t[1..], '}');
      if Expect(t[1..], '}').None? {
        MembersSqueezed(t[1..]);
      }
    } else if t[0] == 't' {
      WordSqueezed(t, "true", JBool(true));
    } else if t[0] == 'f' {
      WordSqueezed(t, "false", JBool(false));
    } else if t[0] == 'n' {
      WordSqueezed(t, "null", JNull);
    } else {
      NumberSqueezed(t);
    }
  }

  lemma SqueezeStart(t: string)
    requires t != ""
    ensures Squeeze(t) != "" && Squeeze(t)[0] == t[0] && (t[0] != '\\' ==> Squeeze(t)[1..] == Squeeze(t[1..]))
  {
  }

  lemma {:induction false} ElementsSqueezed(s: string)
    requires ParseElements(s).Some?
    ensures ParseElements(Squeeze(s)) == Squeezed(ParseElements(s))
    decreases |s|, 1
  {
    hide Squeeze, ParseValue, Expect;
    var p := ParseValue(s).value;
    ValueSqueezed(s);
    ExpectSqueezed(p.rest, ',');
    ExpectSqueezed(p.rest, ']');
    if Expect(p.rest, ']').None? {
      ElementsSqueezed(Expect(p.rest, ',').value);
    }
  }

  lemma {:induction false} MembersSqueezed(s: string)
    requires ParseMembers(s).Some?
    ensures ParseMembers(Squeeze(s)) == Squeezed(ParseMembers(s))
    decreases |s|, 1
  {
    hide Squeeze, ParseValue, ParseChars, Expect;
    var chars := Expect(s, '"').value;
    var key := ParseChars(chars).value;
    var text := Expect(key.rest, ':').value;
    var p := ParseValue(text).value;
    ExpectSqueezed(s, '"');
    CharsSqueezed(chars);
    ExpectSqueezed(key.rest, ':');
    ValueSqueezed(text);
    ExpectSqueezed(p.rest, ',');
    ExpectSqueezed(p.rest, '}');
    if Expect(p.rest, '}').None? {
      MembersSqueezed(Expect(p.rest, ',').value);
    }
  }
}
