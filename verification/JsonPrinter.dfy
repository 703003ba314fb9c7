/** The loops of ksps/json.go that append to a growing buffer. */
module JsonPrinter {
  import opened Decimals
  import opened JsonText
  import opened Sequences

  lemma {:induction false} EscapeAppend(s: string, c: char)
    ensures Escape(s + [c]) == Escape(s) + EscapeChar(c)
  {
    if s == "" {
      assert [c][1..] == "" && "" + [c] == [c];
      assert EscapeChar(c) + "" == EscapeChar(c) && "" + EscapeChar(c) == EscapeChar(c);
    } else {
      assert (s + [c])[1..] == s[1..] + [c];
      EscapeAppend(s[1..], c);
      Assoc(EscapeChar(s[0]), Escape(s[1..]), EscapeChar(c));
    }
  }

  /** appendEscaped */
  method AppendEscaped(buf: string, s: string) returns (out: string)
    ensures out == buf + Escape(s)
  {
    hide Escape, HexChar;
    out := buf;
    EscapeNothing(buf);
    for i := 0 to |s|
      invariant out == buf + Escape(s[..i])
    {
      var c := s[i];
      EscapeAppend(s[..i], c);
      assert s[..i + 1] == s[..i] + [c];
      Assoc(buf, Escape(s[..i]), EscapeChar(c));
      match c
      case '"' => out := out + ['\\', '"'];
      case '\\' => out := out + ['\\', '\\'];
      case '\n' => out := out + ['\\', 'n'];
      case '\r' => out := out + ['\\', 'r'];
      case '\t' => out := out + ['\\', 't'];
      case _ =>
        if c < 32 as char {
          out := out + ['\\', 'u', '0', '0', HexChar(c as int / 16), HexChar(c as int % 16)];
        } else {
          out := out + [c];
        }
    }
    assert s[..|s|] == s;
  }

  lemma EscapeNothing(buf: string)
    ensures buf == buf + Escape("")
    ensures forall s: string :: s[..0] == ""
  {
  }

  method AppendQuoted(buf: string, s: string) returns (out: string)
    ensures out == buf + Quoted(s)
  {
    out := AppendEscaped(buf + ['"'], s);
    assert out + ['"'] == buf + ("\"" + Escape(s) + "\"");
    out := out + ['"'];
  }

  /** One part more behind `pre` and the parts so far, with its comma. */
  lemma CommasAppend(pre: string, parts: seq<string>, part: string)
    ensures pre + Commas(parts + [part]) == pre + Commas(parts) + (if parts == [] then "" else ",") + part
  {
    assert (parts + [part])[..|parts|] == parts;
    if parts == [] {
      assert pre + Commas(parts) + "" + part == pre + part;
    } else {
      Assoc(pre, Commas(parts), ",");
      Assoc(pre, Commas(parts) + ",", part);
    }
  }

  lemma Enclosed(buf: string, open: string, inner: string, close: string)
    ensures buf + open + inner + close == buf + (open + inner + close)
  {
    Assoc(buf, open, inner);
    Assoc(buf, open + inner, close);
  }

  lemma NoParts(pre: string)
    ensures pre + Commas([]) == pre
  {
  }

  /** appendValueFast */
  method AppendValue(buf: string, v: Value) returns (out: string)
    ensures out == buf + Print(v)
    decreases v, 1
  {
    hide PrintItems, PrintTexts, PrintMembers, Commas, Quoted, Signed;
    match v
    case Null => out := buf + "null";
    case Bool(b) => out := buf + if b then "true" else "false";
    case Int(n) => out := buf + Signed(n);
    case Str(s) => out := AppendQuoted(buf, s);
    case Arr(items) => out := AppendItems(buf, v, items);
    case Strs(texts) => out := AppendTexts(buf, texts);
    case Obj(members) => out := AppendMembers(buf, v, members);
  }

  method AppendItems(buf: string, ghost v: Value, items: seq<Value>) returns (out: string)
    requires v == Arr(items)
    ensures out == buf + ("[" + Commas(PrintItems(items)) + "]")
    decreases v, 0
  {
    hide Print, Commas;
    out := buf + "[";
    ghost var parts: seq<string> := [];
    NoParts(buf + "[");
    for i := 0 to |items|
      invariant parts == PrintItems(items)[..i]
      invariant out == buf + "[" + Commas(parts)
    {
      CommasAppend(buf + "[", parts, Print(items[i]));
      if i > 0 {
        out := out + ",";
      }
      out := AppendValue(out, items[i]);
      parts := parts + [Print(items[i])];
    }
    assert parts == PrintItems(items);
    Enclosed(buf, "[", Commas(parts), "]");
    out := out + "]";
  }

  method AppendTexts(buf: string, texts: seq<string>) returns (out: string)
    ensures out == buf + ("[" + Commas(PrintTexts(texts)) + "]")
  {
    hide Quoted, Commas;
    out := buf + "[";
    ghost var parts: seq<string> := [];
    NoParts(buf + "[");
    for i := 0 to |texts|
      invariant parts == PrintTexts(texts)[..i]
      invariant out == buf + "[" + Commas(parts)
    {
      CommasAppend(buf + "[", parts, Quoted(texts[i]));
      if i > 0 {
        out := out + ",";
      }
      out := AppendQuoted(out, texts[i]);
      parts := parts + [Quoted(texts[i])];
    }
    assert parts == PrintTexts(texts);
    Enclosed(buf, "[", Commas(parts), "]");
    out := out + "]";
  }

  /** The members of a map, in the order in which they come. */
  method AppendMembers(buf: string, ghost v: Value, members: seq<Member>) returns (out: string)
    requires v == Obj(members)
    ensures out == buf + ("{" + Commas(PrintMembers(members)) + "}")
    decreases v, 0
  {
    hide Print, Commas, Quoted;
    out := buf + "{";
    ghost var parts: seq<string> := [];
    var first := true;
    NoParts(buf + "{");
    for i := 0 to |members|
      invariant first <==> i == 0
      invariant parts == PrintMembers(members)[..i]
      invariant out == buf + "{" + Commas(parts)
    {
      var m := members[i];
      CommasAppend(buf + "{", parts, PrintMember(m));
      if !first {
        out := out + ",";
      }
      Enclosed(out, Quoted(m.key), ":", Print(m.value));
      out := AppendQuoted(out, m.key);
      out := out + ":";
      out := AppendValue(out, m.value);
      parts := parts + [PrintMember(m)];
      first := false;
    }
    assert parts == PrintMembers(members);
    Enclosed(buf, "{", Commas(parts), "}");
    out := out + "}";
  }
}
