/** Comma-separated header values: parseExtensions and tokenListContainsValue of ws/util.go. */
module HeaderLists {
  import opened Utf8
  import opened Options
  import opened HeaderTokens

  type Extension = map<string, string>

  predicate StartsWith(s: string, c: char) {
    s != "" && s[0] == c
  }

  // ----- Extensions -----

  datatype Params = Params(ext: Extension, rest: string)

  /** The value of a parameter, if there is one, and what follows it. */
  function ParamValue(s: string): (r: Scanned)
    ensures |r.rest| <= |s|
  {
    var t := SkipSpace(s);
    if StartsWith(t, '=') then
      var v := NextTokenOrQuoted(SkipSpace(t[1..]));
      Scanned(v.value, SkipSpace(v.rest))
    else Scanned("", t)
  }

  /** extension-param, over and over; None when one is malformed. */
  function ParseParams(ext: Extension, s: string): (r: Option<Params>)
    ensures r.Some? ==> |r.value.rest| <= |s|
    decreases |s|
  {
    var t := SkipSpace(s);
    if !StartsWith(t, ';') then Some(Params(ext, t))
    else
      var k := NextToken(SkipSpace(t[1..]));
      if k.value == "" then None
      else
        var v := ParamValue(k.rest);
        if v.rest != "" && v.rest[0] != ',' && v.rest[0] != ';' then None
        else ParseParams(ext[k.value := v.value], v.rest)
  }

  /** The extensions of one header line, up to the first that is malformed. */
  function ParseLine(s: string): seq<Extension>
    decreases |s|
  {
    var t := NextToken(SkipSpace(s));
    if t.value == "" then []
    else
      var p := ParseParams(map["" := t.value], t.rest);
      if p.None? || (p.value.rest != "" && p.value.rest[0] != ',') then []
      else [p.value.ext] + if p.value.rest == "" then [] else ParseLine(p.value.rest[1..])
  }

  function ParseExtensions(lines: seq<string>): seq<Extension> {
    if lines == [] then [] else ParseExtensions(lines[..|lines| - 1]) + ParseLine(lines[|lines| - 1])
  }

  /** The extensions of several lines come one line after the other. */
  lemma {:induction false} LinesAppend(lines: seq<string>, lines': seq<string>)
    ensures ParseExtensions(lines + lines') == ParseExtensions(lines) + ParseExtensions(lines')
    ensures |lines| == 1 ==> ParseExtensions(lines) == ParseLine(lines[0])
    decreases |lines'|
  {
    hide ParseLine;
    if |lines| == 1 {
      assert lines[..0] == [];
    }
    if lines' == [] {
      assert lines + lines' == lines;
    } else {
      var all, n := lines + lines', |lines'| - 1;
      assert all[..|all| - 1] == lines + lines'[..n];
      LinesAppend(lines, lines'[..n]);
    }
  }

  /** What may follow "=": a value; without it the value is empty. */
  method ScanValue(s: string) returns (v: string, rest: string)
    ensures Scanned(v, rest) == ParamValue(s)
  {
    v := "";
    rest := ScanSpace(s);
    if StartsWith(rest, '=') {
      rest := ScanSpace(rest[1..]);
      v, rest := ScanTokenOrQuoted(rest);
      rest := ScanSpace(rest);
    }
  }

  /** The inner loop of parseExtensions; each round leaves less of the line. */
  method ScanParams(ext: Extension, s: string) returns (r: Option<Params>)
    ensures r == ParseParams(ext, s)
  {
    hide NextToken, NextTokenOrQuoted, SkipSpace, ParamValue;
    var ext', left := ext, s;
    while true
      invariant ParseParams(ext', left) == ParseParams(ext, s)
      decreases |left|
    {
      var t := ScanSpace(left);
      if !StartsWith(t, ';') {
        return Some(Params(ext', t));
      }
      t := ScanSpace(t[1..]);
      var k, v;
      k, t := ScanToken(t);
      if k == "" {
        return None;
      }
      v, t := ScanValue(t);
      if t != "" && t[0] != ',' && t[0] != ';' {
        return None;
      }
      ext', left := ext'[k := v], t;
    }
  }

  lemma MoreExtensions(a: seq<Extension>, e: Extension, b: seq<Extension>)
    ensures a + ([e] + b) == a + [e] + b && a + [] == a
  {
  }

  /** The outer loop of parseExtensions over one line. */
  method ScanLine(s: string) returns (result: seq<Extension>)
    ensures result == ParseLine(s)
  {
    hide NextToken, SkipSpace, ParseParams;
    result := [];
    var left := s;
    while true
      invariant result + ParseLine(left) == ParseLine(s)
      decreases |left|
    {
      var t := ScanSpace(left);
      var token;
      token, t := ScanToken(t);
      MoreExtensions(result, map[], []);
      if token == "" {
        return;
      }
      var p := ScanParams(map["" := token], t);
      if p.None? || (p.value.rest != "" && p.value.rest[0] != ',') {
        return;
      }
      MoreExtensions(result, p.value.ext, if p.value.rest == "" then [] else ParseLine(p.value.rest[1..]));
      result := result + [p.value.ext];
      MoreExtensions(result, map[], []);
      if p.value.rest == "" {
        return;
      }
      left := p.value.rest[1..];
    }
  }

  /** parseExtensions */
  method ScanExtensions(lines: seq<string>) returns (result: seq<Extension>)
    ensures result == ParseExtensions(lines)
  {
    result := [];
    for i := 0 to |lines|
      invariant result == ParseExtensions(lines[..i])
    {
      var more := ScanLine(lines[i]);
      assert lines[..i + 1][..i] == lines[..i];
      result := result + more;
    }
    assert lines[..|lines|] == lines;
  }

  // ----- Lists of tokens -----

  /** The tokens of one header line, up to the first that something else than a comma follows. */
  function TokensOf(s: string): seq<string>
    decreases |s|
  {
    var t := NextToken(SkipSpace(s));
    var rest := SkipSpace(t.rest);
    if t.value == "" || (rest != "" && rest[0] != ',') then []
    else [t.value] + if rest == "" then [] else TokensOf(rest[1..])
  }

  function Fold(c: char): char {
    if 'A' <= c <= 'Z' then (c as int + 32) as char else c
  }

  /** Two characters are folded together if they are the same, or one ASCII letter in its two cases. */
  lemma CharFoldMeans(c: char, d: char)
    ensures Fold(c) == Fold(d) <==>
            || c == d
            || (65 <= c as int <= 90 && d as int == c as int + 32)
            || (65 <= d as int <= 90 && c as int == d as int + 32)
  {
  }

  predicate SameFolded(s: string, t: string) {
    |s| == |t| && forall i :: 0 <= i < |s| ==> Fold(s[i]) == Fold(t[i])
  }

  function FoldRune(r: nat): nat {
    if 'A' as int <= r <= 'Z' as int then r + 32 else r
  }

  /** Two runes are folded together if they are the same, or one ASCII letter in its two cases. */
  lemma FoldMeans(a: nat, b: nat)
    ensures FoldRune(a) == FoldRune(b) <==> a == b || (65 <= a <= 90 && b == a + 32) || (65 <= b <= 90 && a == b + 32)
  {
  }

  /** The same runes, up to the case of ASCII letters. */
  predicate SameRunes(s: string, t: string)
    decreases |s|
  {
    if s == "" || t == "" then s == t
    else FoldRune(Rune(s)) == FoldRune(Rune(t)) && SameRunes(s[Size(s)..], t[Size(t)..])
  }

  /** equalASCIIFold */
  method EqualFold(s0: string, t0: string) returns (same: bool)
    ensures same <==> SameRunes(s0, t0)
  {
    hide Rune, Size;
    var s, t := s0, t0;
    while s != "" && t != ""
      invariant SameRunes(s, t) <==> SameRunes(s0, t0)
      decreases |s|
    {
      var sr, tr := Rune(s), Rune(t);
      ghost var more := SameRunes(s[Size(s)..], t[Size(t)..]);
      assert SameRunes(s, t) <==> FoldRune(sr) == FoldRune(tr) && more;
      s, t := s[Size(s)..], t[Size(t)..];
      if sr != tr {
        if 'A' as int <= sr <= 'Z' as int {
          sr := sr + 32;
        }
        if 'A' as int <= tr <= 'Z' as int {
          tr := tr + 32;
        }
        if sr != tr {
          return false;
        }
      }
    }
    return s == t;
  }

  /** SameRunes says, position by position, that the runes agree. */
  lemma {:induction false} SameRunesMeans(s: string, t: string)
    ensures SameRunes(s, t) <==>
            && |Runes(s)| == |Runes(t)|
            && forall i :: 0 <= i < |Runes(s)| ==> FoldRune(Runes(s)[i]) == FoldRune(Runes(t)[i])
    decreases |s|
  {
    hide Rune, Size, FoldRune;
    if s != "" && t != "" {
      var s', t' := s[Size(s)..], t[Size(t)..];
      SameRunesMeans(s', t');
      assert Runes(s) == [Rune(s)] + Runes(s') && Runes(t) == [Rune(t)] + Runes(t');
      if |Runes(s)| == |Runes(t)| && forall i :: 0 <= i < |Runes(s)| ==> FoldRune(Runes(s)[i]) == FoldRune(Runes(t)[i]) {
        assert FoldRune(Runes(s)[0]) == FoldRune(Runes(t)[0]);
        forall i | 0 <= i < |Runes(s')|
          ensures FoldRune(Runes(s')[i]) == FoldRune(Runes(t')[i])
        {
          assert FoldRune(Runes(s)[i + 1]) == FoldRune(Runes(t)[i + 1]);
        }
      }
    }
  }

  /** The first runes of two strings that agree byte by byte, up to case, are as wide, and the same up to case. */
  lemma FoldedRune(s: string, t: string)
    requires s != "" && SameFolded(s, t)
    ensures Width(s) == Width(t) && FoldRune(Rune(s)) == FoldRune(Rune(t))
    ensures SameFolded(s[Size(s)..], t[Size(s)..])
  {
    assert forall i :: 0 <= i < |s| && (s[i] as int >= 0x80 || t[i] as int >= 0x80) ==> s[i] == t[i];
    assert Fold(s[0]) == Fold(t[0]);
  }

  /** Strings that agree byte by byte up to case agree rune by rune. */
  lemma {:induction false} FoldedRunes(s: string, t: string)
    requires SameFolded(s, t)
    ensures SameRunes(s, t)
    decreases |s|
  {
    if s != "" {
      FoldedRune(s, t);
      hide Rune, Width, SameFolded;
      FoldedRunes(s[Size(s)..], t[Size(t)..]);
    }
  }

  /** Well-formed runes that are the same up to case are the same bytes up to case. */
  lemma FoldedBytes(s: string, t: string)
    requires s != "" && t != "" && Width(s) > 0 && Width(t) > 0 && FoldRune(Rune(s)) == FoldRune(Rune(t))
    ensures Width(s) == Width(t)
    ensures forall i :: 0 <= i < Width(s) ==> Fold(s[i]) == Fold(t[i])
  {
    RuneBytes(s);
    RuneBytes(t);
    hide Rune;
    AsciiRune(s);
    AsciiRune(t);
    if Rune(s) == Rune(t) {
      assert s[..Width(s)] == t[..Width(t)];
      assert forall i :: 0 <= i < Width(s) ==> s[i] == s[..Width(s)][i] == t[..Width(t)][i] == t[i];
    }
  }

  lemma RestFolded(s: string, t: string, w: nat)
    requires w <= |s| && w <= |t| && forall i :: 0 <= i < w ==> Fold(s[i]) == Fold(t[i])
    ensures SameFolded(s[w..], t[w..]) ==> SameFolded(s, t)
  {
    hide Fold;
    if SameFolded(s[w..], t[w..]) {
      forall i | 0 <= i < |s|
        ensures Fold(s[i]) == Fold(t[i])
      {
        assert i >= w ==> Fold(s[w..][i - w]) == Fold(t[w..][i - w]);
      }
    }
  }

  lemma AsciiRune(s: string)
    requires s != "" && Width(s) > 0
    ensures Rune(s) < 128 <==> Width(s) == 1
    ensures Width(s) == 1 ==> Rune(s) == s[0] as int
  {
    RuneBytes(s);
  }

  /** Of valid UTF-8 equalASCIIFold compares the bytes, up to the case of ASCII letters. */
  lemma {:induction false} ValidFolded(s: string, t: string)
    requires ValidString(s) && ValidString(t)
    ensures SameRunes(s, t) <==> SameFolded(s, t)
    decreases |s|
  {
    if SameFolded(s, t) {
      FoldedRunes(s, t);
    } else if s != "" && t != "" && FoldRune(Rune(s)) == FoldRune(Rune(t)) {
      FoldedBytes(s, t);
      var w := Width(s);
      ValidFolded(s[w..], t[w..]);
      RestFolded(s, t, w);
    }
  }

  /** Of other strings it does not: all bytes that begin no rune are one to it. */
  lemma InvalidFolded(a: char, b: char)
    requires 0x80 <= a as int < 0xC0 && 0x80 <= b as int < 0xC0 && a != b
    ensures SameRunes([a], [b]) && !SameFolded([a], [b])
  {
    assert [a][1..] == "" && [b][1..] == "";
    assert Fold([a][0]) != Fold([b][0]);
  }

  /** A string of ASCII agrees with another rune by rune exactly if it does byte by byte. */
  lemma {:induction false} AsciiFolded(s: string, t: string)
    requires forall i :: 0 <= i < |s| ==> Ascii(s[i])
    ensures SameRunes(s, t) <==> SameFolded(s, t)
    decreases |s|
  {
    if SameFolded(s, t) {
      FoldedRunes(s, t);
    } else if s != "" && t != "" && FoldRune(Rune(s)) == FoldRune(Rune(t)) {
      AsciiRune(s);
      assert Width(t) > 0;
      AsciiRune(t);
      FoldedBytes(s, t);
      AsciiFolded(s[1..], t[1..]);
      RestFolded(s, t, 1);
    }
  }

  /** A token is ASCII. */
  lemma TokenAscii(s: string)
    ensures var t := NextToken(SkipSpace(s)).value; forall i :: 0 <= i < |t| ==> Ascii(t[i])
  {
    hide IsToken, SkipSpace, TokenLength;
    var t := NextToken(SkipSpace(s)).value;
    forall i | 0 <= i < |t|
      ensures Ascii(t[i])
    {
      TokenOctet(t[i]);
    }
  }

  lemma TokenOctet(c: char)
    ensures IsToken(c) ==> Ascii(c)
  {
  }

  /** One line of tokenListContainsValue. */
  method LineContains(s: string, value: string) returns (found: bool)
    ensures found <==> exists t :: t in TokensOf(s) && SameFolded(t, value)
  {
    hide NextToken, SkipSpace, SameFolded, SameRunes;
    var left := s;
    while true
      invariant forall t :: t in TokensOf(s) && SameFolded(t, value) ==> t in TokensOf(left)
      invariant forall t :: t in TokensOf(left) ==> t in TokensOf(s)
      decreases |left|
    {
      var t := ScanSpace(left);
      var token;
      token, t := ScanToken(t);
      if token == "" {
        return false;
      }
      t := ScanSpace(t);
      if t != "" && t[0] != ',' {
        return false;
      }
      TokenAscii(left);
      AsciiFolded(token, value);
      var same := EqualFold(token, value);
      if same {
        assert token in TokensOf(left);
        return true;
      }
      if t == "" {
        return false;
      }
      left := t[1..];
    }
  }

  /** tokenListContainsValue */
  method TokenListContains(lines: seq<string>, value: string) returns (found: bool)
    ensures found <==> exists i, t :: 0 <= i < |lines| && t in TokensOf(lines[i]) && SameFolded(t, value)
  {
    hide TokensOf, SameFolded;
    for i := 0 to |lines|
      invariant forall j, t :: 0 <= j < i && t in TokensOf(lines[j]) ==> !SameFolded(t, value)
    {
      var here := LineContains(lines[i], value);
      if here {
        return true;
      }
    }
    return false;
  }
}
