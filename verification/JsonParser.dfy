/** A parser for JSON texts after RFC 8259, written from the grammar; a UTF-8 byte is a char of that code. */
module JsonParser {
  import opened Decimals
  import opened Options
  import opened Utf8

  datatype Json =
    | JNull
    | JBool(b: bool)
    | JInt(n: int)
    | JReal(text: string)
    | JStr(s: string)
    | JArr(items: seq<Json>)
    | JObj(members: map<string, Json>)

  /** A value and what follows it. */
  datatype Parsed<T> = Parsed(value: T, rest: string)

  predicate IsWhite(c: char) {
    c == ' ' || c == '\t' || c == '\n' || c == '\r'
  }

  function SkipWhite(s: string): (t: string)
    ensures |t| <= |s|
  {
    if s != "" && IsWhite(s[0]) then SkipWhite(s[1..]) else s
  }

  // ----- Strings (section 7) -----

  function HexDigit(c: char): Option<nat>
    ensures HexDigit(c).Some? ==> HexDigit(c).value < 16
  {
    if '0' <= c <= '9' then Some(c as int - '0' as int)
    else if 'a' <= c <= 'f' then Some(c as int - 'a' as int + 10)
    else if 'A' <= c <= 'F' then Some(c as int - 'A' as int + 10)
    else None
  }

  function Hex4(s: string): (r: Option<nat>)
    requires |s| >= 4
    ensures r.Some? ==> r.value < 0x1_0000
  {
    var a, b, c, d := HexDigit(s[0]), HexDigit(s[1]), HexDigit(s[2]), HexDigit(s[3]);
    if a.Some? && b.Some? && c.Some? && d.Some?
    then Some(4096 * a.value + 256 * b.value + 16 * c.value + d.value)
    else None
  }

  /** What follows a backslash; surrogates are refused. */
  function ParseEscape(s: string): (r: Option<Parsed<string>>)
    ensures r.Some? ==> |r.value.rest| + |r.value.value| <= |s| && |r.value.rest| < |s|
  {
    if s == "" then None
    else if s[0] == '"' || s[0] == '\\' || s[0] == '/' then Some(Parsed([s[0]], s[1..]))
    else if s[0] == 'b' then Some(Parsed([8 as char], s[1..]))
    else if s[0] == 'f' then Some(Parsed([12 as char], s[1..]))
    else if s[0] == 'n' then Some(Parsed(['\n'], s[1..]))
    else if s[0] == 'r' then Some(Parsed(['\r'], s[1..]))
    else if s[0] == 't' then Some(Parsed(['\t'], s[1..]))
    else if s[0] == 'u' && |s| >= 5 then
      var code := Hex4(s[1..]);
      if code.None? || 0xD800 <= code.value < 0xE000 then None else Some(Parsed(Encoded(code.value), s[5..]))
    else None
  }

  function Prepend(front: string, r: Option<Parsed<string>>): Option<Parsed<string>> {
    if r.None? then None else Some(Parsed(front + r.value.value, r.value.rest))
  }

  /** The characters of a string up to its closing quote, which is consumed. */
  function ParseChars(s: string): (r: Option<Parsed<string>>)
    ensures r.Some? ==> |r.value.rest| + |r.value.value| < |s|
    decreases |s|
  {
    if s == "" then None
    else if s[0] == '"' then Some(Parsed("", s[1..]))
    else if s[0] == '\\' then
      var e := ParseEscape(s[1..]);
      if e.None? then None else Prepend(e.value.value, ParseChars(e.value.rest))
    else if s[0] < ' ' then None
    else Prepend([s[0]], ParseChars(s[1..]))
  }

  // ----- Numbers (section 6) -----

  function Digits(s: string): (n: nat)
    ensures n <= |s| && forall i :: 0 <= i < n ==> IsDigit(s[i])
    ensures n < |s| ==> !IsDigit(s[n])
  {
    if s != "" && IsDigit(s[0]) then 1 + Digits(s[1..]) else 0
  }

  /** The length of the fraction at the start of s, if there is one. */
  function Fraction(s: string): (n: nat)
    ensures n <= |s|
  {
    if s != "" && s[0] == '.' && Digits(s[1..]) > 0 then 1 + Digits(s[1..]) else 0
  }

  /** n characters and the digits behind them, of which there must be some. */
  function AndDigits(s: string, n: nat): (k: nat)
    requires n <= |s|
    ensures k <= |s|
  {
    var d := Digits(s[n..]);
    if d > 0 then n + d else 0
  }

  /** The length of the exponent at the start of s, if there is one. */
  function Exponent(s: string): (n: nat)
    ensures n <= |s|
  {
    if s == "" || (s[0] != 'e' && s[0] != 'E') then 0
    else if |s| > 1 && (s[1] == '+' || s[1] == '-') then AndDigits(s, 2)
    else AndDigits(s, 1)
  }

  /** The digits of the integer part: no leading zero but for zero itself. */
  function IntLength(s: string): (n: nat)
    ensures n <= |s| && forall i :: 0 <= i < n ==> IsDigit(s[i])
  {
    if s != "" && s[0] == '0' then 1 else Digits(s)
  }

  function ParseNumber(s: string): (r: Option<Parsed<Json>>)
    ensures r.Some? ==> |r.value.rest| < |s|
  {
    var minus := if s != "" && s[0] == '-' then 1 else 0;
    var t := s[minus..];
    var n := IntLength(t);
    var f := Fraction(t[n..]);
    var e := Exponent(t[n + f..]);
    if n == 0 then None
    else if f + e > 0 then Some(Parsed(JReal(s[..minus + n + f + e]), t[n + f + e..]))
    else
      var k: int := Number(t[..n]);
      Some(Parsed(JInt(if minus == 1 then -k else k), t[n..]))
  }

  // ----- Values (sections 2 to 5) -----

  function Word(s: string, word: string, v: Json): (r: Option<Parsed<Json>>)
    requires word != ""
    ensures r.Some? ==> |r.value.rest| < |s|
  {
    if word <= s then Some(Parsed(v, s[|word|..])) else None
  }

  /** A character that must come next, whitespace aside. */
  function Expect(s: string, c: char): (r: Option<string>)
    ensures r.Some? ==> |r.value| < |s|
  {
    var t := SkipWhite(s);
    if t != "" && t[0] == c then Some(t[1..]) else None
  }

  function ParseValue(s: string): (r: Option<Parsed<Json>>)
    ensures r.Some? ==> |r.value.rest| < |s|
    decreases |s|, 0
  {
    var t := SkipWhite(s);
    if t == "" then None
    else if t[0] == '"' then
      var p := ParseChars(t[1..]);
      if p.None? then None else Some(Parsed(JStr(p.value.value), p.value.rest))
    else if t[0] == '[' then
      var end := Expect(t[1..], ']');
      if end.Some? then Some(Parsed(JArr([]), end.value))
      else
        var p := ParseElements(t[1..]);
        if p.None? then None else Some(Parsed(JArr(p.value.value), p.value.rest))
    else if t[0] == '{' then
      var end := Expect(t[1..], '}');
      if end.Some? then Some(Parsed(JObj(map[]), end.value))
      else
        var p := ParseMembers(t[1..]);
        if p.None? then None else Some(Parsed(JObj(p.value.value), p.value.rest))
    else if t[0] == 't' then Word(t, "true", JBool(true))
    else if t[0] == 'f' then Word(t, "false", JBool(false))
    else if t[0] == 'n' then Word(t, "null", JNull)
    else ParseNumber(t)
  }

  function ParseElements(s: string): (r: Option<Parsed<seq<Json>>>)
    ensures r.Some? ==> |r.value.rest| < |s|
    decreases |s|, 1
  {
    var p := ParseValue(s);
    if p.None? then None
    else
      var comma, end := Expect(p.value.rest, ','), Expect(p.value.rest, ']');
      if end.Some? then Some(Parsed([p.value.value], end.value))
      else if comma.None? then None
      else
        var q := ParseElements(comma.value);
        if q.None? then None else Some(Parsed([p.value.value] + q.value.value, q.value.rest))
  }

  /** Of members with the same name the last counts. */
  function ParseMembers(s: string): (r: Option<Parsed<map<string, Json>>>)
    ensures r.Some? ==> |r.value.rest| < |s|
    decreases |s|, 1
  {
    var quote := Expect(s, '"');
    if quote.None? then None
    else
      var key := ParseChars(quote.value);
      if key.None? then None
      else
        var colon := Expect(key.value.rest, ':');
        if colon.None? then None
        else
          var p := ParseValue(colon.value);
          if p.None? then None
          else
            var comma, end := Expect(p.value.rest, ','), Expect(p.value.rest, '}');
            if end.Some? then Some(Parsed(map[key.value.value := p.value.value], end.value))
            else if comma.None? then None
            else
              var q := ParseMembers(comma.value);
              if q.None? then None
              else Some(Parsed(map[key.value.value := p.value.value] + q.value.value, q.value.rest))
  }
}
