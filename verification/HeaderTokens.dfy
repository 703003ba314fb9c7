/** Tokens and quoted strings of HTTP headers (section 2.2 of RFC 2616) as ws/util.go scans them. */
module HeaderTokens {
  import opened Options

  /** isTokenOctet */
  predicate IsToken(c: char) {
    'a' <= c <= 'z' || 'A' <= c <= 'Z' || '0' <= c <= '9' || c in "!#$%&'*+-.^_`|~"
  }

  /** A token octet is a visible ASCII character that is none of the separators of section 2.2. */
  lemma TokenOctets(c: char)
    ensures IsToken(c) <==> 33 <= c as int <= 126 && c !in "()<>@,;:\\\"/[]?={}"
  {
    var separators, symbols := "()<>@,;:\\\"/[]?={}", "!#$%&'*+-.^_`|~";
    assert c in symbols ==> c !in separators;
  }

  predicate IsSpace(c: char) {
    c == ' ' || c == '\t'
  }

  predicate AllTokens(s: string) {
    forall i :: 0 <= i < |s| ==> IsToken(s[i])
  }

  /** How many characters of s make up its leading token. */
  function TokenLength(s: string): (n: nat)
    ensures n <= |s| && AllTokens(s[..n]) && (n < |s| ==> !IsToken(s[n]))
  {
    if s == "" || !IsToken(s[0]) then 0
    else
      var n := TokenLength(s[1..]);
      assert s[..1 + n] == [s[0]] + s[1..][..n];
      1 + n
  }

  datatype Scanned = Scanned(value: string, rest: string)

  function NextToken(s: string): (r: Scanned)
    ensures |r.value| + |r.rest| == |s|
  {
    Scanned(s[..TokenLength(s)], s[TokenLength(s)..])
  }

  function SkipSpace(s: string): (r: string)
    ensures |r| <= |s|
  {
    if s != "" && IsSpace(s[0]) then SkipSpace(s[1..]) else s
  }

  /** What a quoted string says, from behind its opening quote; None when it is not closed. */
  function Unquote(s: string): (r: Option<Scanned>)
    ensures r.Some? ==> |r.value.value| + |r.value.rest| < |s|
    decreases |s|
  {
    if s == "" then None
    else if s[0] == '"' then Some(Scanned("", s[1..]))
    else if s[0] == '\\' then if |s| < 2 then None else Before(s[1], Unquote(s[2..]))
    else Before(s[0], Unquote(s[1..]))
  }

  function Before(c: char, r: Option<Scanned>): Option<Scanned> {
    if r.None? then None else Some(Scanned([c] + r.value.value, r.value.rest))
  }

  /** An unclosed quoted string is empty, with nothing behind it. */
  function NextTokenOrQuoted(s: string): (r: Scanned)
    ensures |r.rest| <= |s|
  {
    if s == "" || s[0] != '"' then NextToken(s)
    else
      var u := Unquote(s[1..]);
      if u.None? then Scanned("", "") else u.value
  }

  // ----- The loops -----

  method ScanSpace(s: string) returns (rest: string)
    ensures rest == SkipSpace(s)
  {
    var i := 0;
    while i < |s|
      invariant i <= |s| && SkipSpace(s[i..]) == SkipSpace(s)
    {
      if !IsSpace(s[i]) {
        break;
      }
      assert s[i..][1..] == s[i + 1..];
      i := i + 1;
    }
    return s[i..];
  }

  method ScanToken(s: string) returns (token: string, rest: string)
    ensures Scanned(token, rest) == NextToken(s)
  {
    var i := 0;
    while i < |s|
      invariant i <= |s| && i + TokenLength(s[i..]) == TokenLength(s)
    {
      if !IsToken(s[i]) {
        break;
      }
      assert s[i..][1..] == s[i + 1..];
      i := i + 1;
    }
    return s[..i], s[i..];
  }

  function Behind(front: string, r: Option<Scanned>): Option<Scanned> {
    if r.None? then None else Some(Scanned(front + r.value.value, r.value.rest))
  }

  /** What a quoted string says from i on, where an escape may be pending. */
  function UnquoteFrom(s: string, i: nat, escape: bool): Option<Scanned>
    requires i <= |s|
  {
    if !escape then Unquote(s[i..]) else if i == |s| then None else Before(s[i], Unquote(s[i + 1..]))
  }

  lemma NothingBehind(r: Option<Scanned>)
    ensures Behind("", r) == r
  {
    if r.Some? {
      assert "" + r.value.value == r.value.value;
    }
  }

  lemma OneBehind(front: string, c: char, r: Option<Scanned>)
    ensures Behind(front, Before(c, r)) == Behind(front + [c], r)
  {
    if r.Some? {
      assert front + ([c] + r.value.value) == front + [c] + r.value.value;
    }
  }

  lemma UnquoteStep(s: string, i: nat)
    requires i < |s|
    ensures Unquote(s[i..]) ==
            if s[i] == '"' then Some(Scanned("", s[i + 1..]))
            else if s[i] == '\\' then UnquoteFrom(s, i + 1, true)
            else Before(s[i], Unquote(s[i + 1..]))
  {
    assert s[i..][1..] == s[i + 1..];
    if i + 1 < |s| {
      assert s[i..][2..] == s[i + 2..];
    }
  }

  /** The inner loop of nextTokenOrQuoted: from the first backslash on, into a scratch buffer. */
  method ScanEscaped(s: string, start: nat) returns (r: Option<Scanned>)
    requires start < |s| && s[start] == '\\'
    ensures r == Behind(s[..start], UnquoteFrom(s, start + 1, true))
  {
    hide Unquote;
    var p := new char[|s| - 1];
    forall k | 0 <= k < start {
      p[k] := s[k];
    }
    var i, j, escape := start + 1, start, true;
    assert p[..j] == s[..start];
    while i < |s|
      invariant j < i <= |s|
      invariant Behind(s[..start], UnquoteFrom(s, start + 1, true)) == Behind(p[..j], UnquoteFrom(s, i, escape))
      decreases |s| - i
    {
      var b := s[i];
      ghost var was := p[..j];
      UnquoteStep(s, i);
      if escape {
        escape := false;
        OneBehind(was, b, Unquote(s[i + 1..]));
        p[j] := b;
        assert p[..j + 1] == was + [b];
        j := j + 1;
      } else if b == '\\' {
        escape := true;
      } else if b == '"' {
        assert p[..j] + "" == p[..j];
        return Some(Scanned(p[..j], s[i + 1..]));
      } else {
        OneBehind(was, b, Unquote(s[i + 1..]));
        p[j] := b;
        assert p[..j + 1] == was + [b];
        j := j + 1;
      }
      i := i + 1;
    }
    UnquoteEnd(s);
    return None;
  }

  lemma UnquoteEnd(s: string)
    ensures UnquoteFrom(s, |s|, true) == None && UnquoteFrom(s, |s|, false) == None
  {
    assert s[|s|..] == "";
  }

  /** nextTokenOrQuoted */
  method ScanTokenOrQuoted(s: string) returns (value: string, rest: string)
    ensures Scanned(value, rest) == NextTokenOrQuoted(s)
  {
    hide Unquote;
    if s == "" || s[0] != '"' {
      value, rest := ScanToken(s);
      return;
    }
    var t := s[1..];
    assert t[0..] == t && t[..0] == "";
    NothingBehind(Unquote(t));
    for i := 0 to |t|
      invariant Unquote(t) == Behind(t[..i], Unquote(t[i..]))
    {
      UnquoteStep(t, i);
      if t[i] == '"' {
        assert t[..i] + "" == t[..i];
        return t[..i], t[i + 1..];
      }
      if t[i] == '\\' {
        var r := ScanEscaped(t, i);
        if r.None? {
          return "", "";
        }
        return r.value.value, r.value.rest;
      }
      OneBehind(t[..i], t[i], Unquote(t[i + 1..]));
      assert t[..i + 1] == t[..i] + [t[i]];
    }
    UnquoteEnd(t);
    return "", "";
  }

  // ----- Quoting -----

  /** A quoted string for v: quotes and backslashes are escaped, and any other character may be. */
  function Quote(v: string, escaped: seq<bool>): string
    requires |escaped| == |v|
  {
    if v == "" then "\""
    else (if escaped[0] || v[0] == '"' || v[0] == '\\' then ['\\', v[0]] else [v[0]]) + Quote(v[1..], escaped[1..])
  }

  /** However it was escaped, a quoted string is read back, and what follows it stays. */
  lemma {:induction false} QuoteBack(v: string, escaped: seq<bool>, rest: string)
    requires |escaped| == |v|
    ensures Unquote(Quote(v, escaped) + rest) == Some(Scanned(v, rest))
  {
    var s := Quote(v, escaped) + rest;
    if v == "" {
      assert s[1..] == rest;
    } else {
      var tail := Quote(v[1..], escaped[1..]) + rest;
      QuoteBack(v[1..], escaped[1..], rest);
      assert [v[0]] + v[1..] == v;
      if escaped[0] || v[0] == '"' || v[0] == '\\' {
        assert s[2..] == tail;
      } else {
        assert s[1..] == tail;
      }
    }
  }

  lemma QuotedValueBack(v: string, escaped: seq<bool>, rest: string)
    requires |escaped| == |v|
    ensures NextTokenOrQuoted("\"" + Quote(v, escaped) + rest) == Scanned(v, rest)
  {
    QuoteBack(v, escaped, rest);
    assert ("\"" + Quote(v, escaped) + rest)[1..] == Quote(v, escaped) + rest;
  }

  /** A token is read back when something else follows it. */
  lemma {:induction false} TokenBack(t: string, rest: string)
    requires AllTokens(t) && (rest == "" || !IsToken(rest[0]))
    ensures NextToken(t + rest) == Scanned(t, rest)
  {
    if t == "" {
      assert t + rest == rest;
    } else {
      assert (t + rest)[1..] == t[1..] + rest;
      TokenBack(t[1..], rest);
      assert TokenLength(t + rest) == |t| by {
        assert |(t[1..] + rest)[..TokenLength(t[1..] + rest)]| == |t[1..]|;
      }
    }
  }
}
