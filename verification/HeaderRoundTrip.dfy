/** Well-formed header values, however spaced and quoted, are parsed as what they say. */
module HeaderRoundTrip {
  import opened Options
  import opened HeaderTokens
  import opened HeaderLists
  import opened Sequences

  datatype ValueText = NoValue | TokenValue(v: string) | QuotedValue(q: string, escaped: seq<bool>)

  /** A parameter with the spaces around its parts. */
  datatype ParamText = ParamText(name: string, value: ValueText, spaces: Spaces)

  /** Linear white space before ";", before the name, before "=", before the value and behind it. */
  datatype Spaces = Spaces(semicolon: string, name: string, equals: string, value: string, end: string)

  datatype ExtensionText = ExtensionText(space: string, token: string, params: seq<ParamText>, end: string)

  predicate White(s: string) {
    forall i :: 0 <= i < |s| ==> IsSpace(s[i])
  }

  predicate GoodValue(v: ValueText) {
    match v
    case NoValue => true
    case TokenValue(t) => AllTokens(t)
    case QuotedValue(q, escaped) => |escaped| == |q|
  }

  predicate GoodParam(p: ParamText) {
    && p.name != "" && AllTokens(p.name) && GoodValue(p.value)
    && White(p.spaces.semicolon) && White(p.spaces.name) && White(p.spaces.equals) && White(p.spaces.value) && White(p.spaces.end)
  }

  predicate GoodExtension(e: ExtensionText) {
    && White(e.space) && e.token != "" && AllTokens(e.token) && White(e.end)
    && forall i :: 0 <= i < |e.params| ==> GoodParam(e.params[i])
  }

  function ValueString(v: ValueText): string
    requires GoodValue(v)
  {
    match v
    case NoValue => ""
    case TokenValue(t) => t
    case QuotedValue(q, escaped) => "\"" + Quote(q, escaped)
  }

  function FormatValue(p: ParamText): string
    requires GoodParam(p)
  {
    if p.value.NoValue? then p.spaces.equals
    else p.spaces.equals + ("=" + (p.spaces.value + (ValueString(p.value) + p.spaces.end)))
  }

  function FormatParam(p: ParamText): string
    requires GoodParam(p)
  {
    p.spaces.semicolon + (";" + (p.spaces.name + (p.name + FormatValue(p))))
  }

  function FormatParams(params: seq<ParamText>): string
    requires forall i :: 0 <= i < |params| ==> GoodParam(params[i])
  {
    if params == [] then "" else FormatParam(params[0]) + FormatParams(params[1..])
  }

  function FormatExtension(e: ExtensionText): string
    requires GoodExtension(e)
  {
    e.space + (e.token + (FormatParams(e.params) + e.end))
  }

  function FormatLine(es: seq<ExtensionText>): string
    requires forall i :: 0 <= i < |es| ==> GoodExtension(es[i])
  {
    if es == [] then ""
    else if |es| == 1 then FormatExtension(es[0])
    else FormatExtension(es[0]) + ("," + FormatLine(es[1..]))
  }

  // ----- What they say -----

  function Says(v: ValueText): string {
    match v
    case NoValue => ""
    case TokenValue(t) => t
    case QuotedValue(q, _) => q
  }

  function WithParams(ext: Extension, params: seq<ParamText>): Extension
    decreases |params|
  {
    if params == [] then ext else WithParams(ext[params[0].name := Says(params[0].value)], params[1..])
  }

  function Meaning(es: seq<ExtensionText>): seq<Extension> {
    if es == [] then [] else [WithParams(map["" := es[0].token], es[0].params)] + Meaning(es[1..])
  }

  // ----- Reading them -----

  /** Where a value or a parameter ends. */
  predicate Ended(rest: string) {
    rest == "" || rest[0] == ',' || rest[0] == ';'
  }

  lemma {:induction false} SkipWhite(space: string, s: string)
    requires White(space) && (s == "" || !IsSpace(s[0]))
    ensures SkipSpace(space + s) == s
  {
    if space == "" {
      assert space + s == s;
    } else {
      assert (space + s)[1..] == space[1..] + s;
      SkipWhite(space[1..], s);
    }
  }

  /** White space in front does not matter. */
  lemma {:induction false} SkipMore(space: string, s: string)
    requires White(space)
    ensures SkipSpace(space + s) == SkipSpace(s)
  {
    if space == "" {
      assert space + s == s;
    } else {
      assert (space + s)[1..] == space[1..] + s;
      SkipMore(space[1..], s);
    }
  }

  lemma {:induction false} SkipTwice(s: string)
    ensures SkipSpace(SkipSpace(s)) == SkipSpace(s)
  {
    if s != "" && IsSpace(s[0]) {
      SkipTwice(s[1..]);
    }
  }

  /** White space and then an end, as it follows a value or a parameter. */
  predicate Closes(tail: string) {
    Ended(SkipSpace(tail))
  }

  lemma ClosesWith(space: string, tail: string)
    requires White(space) && Closes(tail)
    ensures Closes(space + tail) && SkipSpace(space + tail) == SkipSpace(tail)
    ensures space + tail == "" || (!IsToken((space + tail)[0]) && (space + tail)[0] != '"')
  {
    SkipMore(space, tail);
    var s := space + tail;
    if s != "" && !IsSpace(s[0]) {
      assert SkipSpace(s) == s;
    }
  }

  lemma ValueBack(v: ValueText, tail: string)
    requires GoodValue(v) && !v.NoValue? && (tail == "" || (!IsToken(tail[0]) && tail[0] != '"'))
    ensures NextTokenOrQuoted(ValueString(v) + tail) == Scanned(Says(v), tail)
  {
    if v.TokenValue? {
      TokenValueBack(v.v, tail);
    } else {
      QuotedValueBack(v.q, v.escaped, tail);
    }
  }

  lemma TokenValueBack(t: string, tail: string)
    requires AllTokens(t) && (tail == "" || (!IsToken(tail[0]) && tail[0] != '"'))
    ensures NextTokenOrQuoted(t + tail) == Scanned(t, tail)
  {
    hide TokenLength, Unquote;
    TokenBack(t, tail);
    if t == "" {
      assert t + tail == tail;
    } else {
      assert IsToken((t + tail)[0]);
    }
  }

  lemma ValueNotSpace(v: ValueText)
    requires GoodValue(v) && ValueString(v) != ""
    ensures !IsSpace(ValueString(v)[0])
  {
    assert v.TokenValue? ==> IsToken(v.v[0]);
  }

  lemma NoValueBack(p: ParamText, tail: string)
    requires GoodParam(p) && p.value.NoValue? && Closes(tail)
    ensures ParamValue(FormatValue(p) + tail) == Scanned("", SkipSpace(tail))
  {
    ClosesWith(p.spaces.equals, tail);
  }

  lemma GivenValueBack(p: ParamText, tail: string)
    requires GoodParam(p) && !p.value.NoValue? && Closes(tail)
    ensures ParamValue(FormatValue(p) + tail) == Scanned(Says(p.value), SkipSpace(tail))
  {
    hide NextTokenOrQuoted, GoodValue, Quote, White;
    var v, behind := ValueString(p.value), p.spaces.end + tail;
    var inner := p.spaces.value + (v + behind);
    Regroup(p.spaces.equals, "=", p.spaces.value, v, p.spaces.end, tail);
    SkipWhite(p.spaces.equals, "=" + inner);
    assert ("=" + inner)[1..] == inner;
    SkipMore(p.spaces.value, v + behind);
    ClosesWith(p.spaces.end, tail);
    ValueBack(p.value, behind);
    if v != "" {
      ValueNotSpace(p.value);
      assert SkipSpace(v + behind) == v + behind;
    } else {
      assert v + behind == behind;
      EmptyBack(p.value, behind);
    }
  }

  /** An empty token is read as such in front of white space and in front of an end. */
  lemma EmptyBack(v: ValueText, behind: string)
    requires GoodValue(v) && !v.NoValue? && ValueString(v) == "" && Closes(behind)
    ensures NextTokenOrQuoted(SkipSpace(behind)) == Scanned(Says(v), SkipSpace(behind))
    ensures SkipSpace(SkipSpace(behind)) == SkipSpace(behind)
  {
    SkipTwice(behind);
    var s := SkipSpace(behind);
    assert s[..0] == "" && s[0..] == s;
  }

  lemma Regroup(a: string, b: string, c: string, d: string, e: string, tail: string)
    ensures a + (b + (c + (d + e))) + tail == a + (b + (c + (d + (e + tail))))
  {
    Assoc(a, b + (c + (d + e)), tail);
    Assoc(b, c + (d + e), tail);
    Assoc(c, d + e, tail);
    Assoc(d, e, tail);
  }

  lemma ParamBack(ext: Extension, p: ParamText, tail: string)
    requires GoodParam(p) && Closes(tail)
    ensures ParseParams(ext, FormatParam(p) + tail) == ParseParams(ext[p.name := Says(p.value)], SkipSpace(tail))
    ensures Closes(FormatParam(p) + tail)
  {
    hide NextToken, White, ParamValue, FormatValue, SkipSpace, Says;
    var v := FormatValue(p) + tail;
    Regroup(p.spaces.semicolon, ";", p.spaces.name, p.name, FormatValue(p), tail);
    SemicolonNext(p.spaces.semicolon, p.spaces.name + (p.name + v));
    NameBack(p, v, tail);
    if p.value.NoValue? {
      NoValueBack(p, tail);
      SaysNothing(p.value);
    } else {
      GivenValueBack(p, tail);
    }
  }

  lemma SaysNothing(v: ValueText)
    ensures v.NoValue? ==> Says(v) == ""
  {
  }

  lemma SemicolonNext(space: string, s: string)
    requires White(space)
    ensures SkipSpace(space + (";" + s)) == ";" + s && (";" + s)[1..] == s
  {
    SkipWhite(space, ";" + s);
  }

  lemma NameBack(p: ParamText, v: string, tail: string)
    requires GoodParam(p) && Closes(tail) && v == FormatValue(p) + tail
    ensures NextToken(SkipSpace(p.spaces.name + (p.name + v))) == Scanned(p.name, v)
  {
    hide ValueString, NextToken, IsToken, SkipSpace;
    ValueStart(p, tail);
    TokenRead(p.spaces.name, p.name, v);
  }

  lemma ValueStart(p: ParamText, tail: string)
    requires GoodParam(p) && Closes(tail)
    ensures var v := FormatValue(p) + tail; v == "" || !IsToken(v[0])
  {
    hide ValueString;
    ClosesWith(p.spaces.equals, tail);
    if !p.value.NoValue? && p.spaces.equals != "" {
      assert IsSpace(p.spaces.equals[0]);
    }
  }

  /** Leading white space makes no difference to parameters. */
  lemma ParamsSkip(ext: Extension, s: string)
    ensures ParseParams(ext, SkipSpace(s)) == ParseParams(ext, s)
  {
    SkipTwice(s);
  }

  ghost predicate GoodParams(params: seq<ParamText>) {
    forall i :: 0 <= i < |params| ==> GoodParam(params[i])
  }

  /** A list of parameters, and after it the end of the line or a comma. */
  lemma {:induction false} ParamsBack(ext: Extension, params: seq<ParamText>, end: string, rest: string)
    requires GoodParams(params) && White(end) && (rest == "" || rest[0] == ',')
    ensures ParseParams(ext, FormatParams(params) + (end + rest)) == Some(Params(WithParams(ext, params), rest))
    ensures Closes(FormatParams(params) + (end + rest))
    decreases |params|
  {
    hide FormatParam, GoodParam, White, Says;
    var tail := end + rest;
    if params == [] {
      assert FormatParams(params) + tail == tail;
      SkipWhite(end, rest);
    } else {
      var more := FormatParams(params[1..]) + tail;
      ParamsBack(ext[params[0].name := Says(params[0].value)], params[1..], end, rest);
      assert FormatParams(params) + tail == FormatParam(params[0]) + more;
      hide SkipSpace, ParseParams;
      ParamBack(ext, params[0], more);
      ParamsSkip(ext[params[0].name := Says(params[0].value)], more);
    }
  }

  lemma ParamsStart(params: seq<ParamText>, end: string, rest: string)
    requires GoodParams(params) && White(end) && (rest == "" || rest[0] == ',')
    ensures var v := FormatParams(params) + (end + rest); v == "" || !IsToken(v[0])
  {
    hide FormatParams, ParseParams, Closes, GoodParam, White, WithParams;
    ParamsBack(map[], params, end, rest);
    NotToken(FormatParams(params) + (end + rest));
  }

  lemma NotToken(v: string)
    requires Closes(v)
    ensures v == "" || !IsToken(v[0])
  {
    if v != "" && !IsSpace(v[0]) {
      assert SkipSpace(v) == v;
    }
  }

  lemma TokenRead(space: string, token: string, v: string)
    requires White(space) && token != "" && AllTokens(token) && (v == "" || !IsToken(v[0]))
    ensures NextToken(SkipSpace(space + (token + v))) == Scanned(token, v)
  {
    assert IsToken(token[0]) && !IsSpace(token[0]);
    hide TokenLength, IsToken;
    SkipWhite(space, token + v);
    TokenBack(token, v);
  }

  lemma TokenNext(e: ExtensionText, rest: string)
    requires GoodExtension(e) && (rest == "" || rest[0] == ',')
    ensures NextToken(SkipSpace(FormatExtension(e) + rest)) == Scanned(e.token, FormatParams(e.params) + (e.end + rest))
  {
    hide NextToken, GoodParam, FormatParams, SkipSpace, White, AllTokens, IsToken;
    Assoc(e.space, e.token + (FormatParams(e.params) + e.end), rest);
    Assoc(e.token, FormatParams(e.params) + e.end, rest);
    Assoc(FormatParams(e.params), e.end, rest);
    ParamsStart(e.params, e.end, rest);
    TokenRead(e.space, e.token, FormatParams(e.params) + (e.end + rest));
  }

  ghost predicate GoodExtensions(es: seq<ExtensionText>) {
    forall i :: 0 <= i < |es| ==> GoodExtension(es[i])
  }

  /** A header line of well-formed extensions is parsed as these extensions. */
  lemma {:induction false} LineBack(es: seq<ExtensionText>)
    requires GoodExtensions(es)
    ensures ParseLine(FormatLine(es)) == Meaning(es)
    decreases |es|
  {
    hide FormatExtension, GoodExtension, NextToken, SkipSpace, ParseParams, WithParams;
    if es == [] {
      EmptyLine();
    } else {
      var rest := if |es| == 1 then "" else "," + FormatLine(es[1..]);
      assert FormatLine(es) == FormatExtension(es[0]) + rest;
      TokenNext(es[0], rest);
      FirstBack(es[0], rest);
      if |es| > 1 {
        LineBack(es[1..]);
        assert rest[1..] == FormatLine(es[1..]);
      }
    }
  }

  lemma FirstBack(e: ExtensionText, rest: string)
    requires GoodExtension(e) && (rest == "" || rest[0] == ',')
    ensures e.token != ""
    ensures ParseParams(map["" := e.token], FormatParams(e.params) + (e.end + rest))
         == Some(Params(WithParams(map["" := e.token], e.params), rest))
  {
    ParamsBack(map["" := e.token], e.params, e.end, rest);
  }

  lemma EmptyLine()
    ensures NextToken(SkipSpace("")).value == ""
  {
  }

  /** A value means the same as a token and quoted, escaped or not. */
  lemma QuotingIsTransparent(space: string, token: string, p: ParamText, escaped: seq<bool>, end: string)
    requires White(space) && token != "" && AllTokens(token) && GoodParam(p) && White(end)
    requires p.value.TokenValue? && |escaped| == |p.value.v|
    ensures var q := p.(value := QuotedValue(p.value.v, escaped));
            (ParseLine(FormatLine([ExtensionText(space, token, [p], end)]))
             == ParseLine(FormatLine([ExtensionText(space, token, [q], end)])))
  {
    hide ParseLine, FormatLine;
    var q := p.(value := QuotedValue(p.value.v, escaped));
    LineBack([ExtensionText(space, token, [p], end)]);
    LineBack([ExtensionText(space, token, [q], end)]);
    var ext: Extension := map["" := token];
    assert [p][1..] == [] && [q][1..] == [];
    assert WithParams(ext, [p]) == WithParams(ext, [q]);
  }

  // ----- Lists of tokens -----

  datatype Spaced = Spaced(before: string, token: string, after: string)

  ghost predicate GoodTokens(ts: seq<Spaced>) {
    forall i :: 0 <= i < |ts| ==>
      White(ts[i].before) && ts[i].token != "" && AllTokens(ts[i].token) && White(ts[i].after)
  }

  function FormatTokens(ts: seq<Spaced>): string {
    if ts == [] then ""
    else ts[0].before + (ts[0].token + (ts[0].after + if |ts| == 1 then "" else "," + FormatTokens(ts[1..])))
  }

  function Listed(ts: seq<Spaced>): (r: seq<string>)
    ensures |r| == |ts|
  {
    seq(|ts|, i requires 0 <= i < |ts| => ts[i].token)
  }

  /** A list of tokens, however spaced, is read as these tokens. */
  lemma {:induction false} TokensBack(ts: seq<Spaced>)
    requires GoodTokens(ts)
    ensures TokensOf(FormatTokens(ts)) == Listed(ts)
    decreases |ts|
  {
    hide NextToken, SkipSpace, IsToken, IsSpace;
    if ts == [] {
      EmptyLine();
    } else {
      var rest := if |ts| == 1 then "" else "," + FormatTokens(ts[1..]);
      CommaCloses(ts[0].after, rest);
      TokenRead(ts[0].before, ts[0].token, ts[0].after + rest);
      assert Listed(ts) == [ts[0].token] + Listed(ts[1..]);
      if |ts| > 1 {
        TokensBack(ts[1..]);
        assert rest[1..] == FormatTokens(ts[1..]);
      }
    }
  }

  lemma CommaCloses(space: string, rest: string)
    requires White(space) && (rest == "" || rest[0] == ',')
    ensures SkipSpace(space + rest) == rest
    ensures space + rest == "" || !IsToken((space + rest)[0])
  {
    SkipWhite(space, rest);
    NotToken(space + rest);
  }
}
