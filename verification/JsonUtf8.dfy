/**
 JSON texts are UTF-8 (section 8.1 of RFC 8259), and the printer copies bytes: a text
 it writes is valid UTF-8 exactly if every string in it is.
 */
module JsonUtf8 {
  import opened Decimals
  import opened JsonHeaders
  import opened JsonMessageExact
  import opened JsonMessages
  import opened JsonParser
  import opened JsonRoundTrip
  import opened JsonText
  import opened Options
  import opened Sequences
  import opened Utf8

  // ----- Parts of a text -----

  predicate AllAscii(p: string) {
    forall i :: 0 <= i < |p| ==> Ascii(p[i])
  }

  lemma AsciiFirst(c: char, x: string)
    requires Ascii(c)
    ensures ValidString([c] + x) <==> ValidString(x)
  {
    assert ([c] + x)[1..] == x;
  }

  lemma {:induction false} AsciiFront(p: string, x: string)
    requires AllAscii(p)
    ensures ValidString(p + x) <==> ValidString(x)
  {
    if p == "" {
      assert p + x == x;
    } else {
      AsciiFront(p[1..], x);
      AsciiFirst(p[0], p[1..] + x);
      assert p + x == [p[0]] + (p[1..] + x);
    }
  }

  /** x begins with ASCII, if at all: no rune goes on into it. */
  predicate Begins(x: string) {
    x == "" || Ascii(x[0])
  }

  /** What decides on the first rune of a is in a. */
  lemma FirstRune(a: string, x: string)
    requires a != "" && Begins(x)
    ensures Width(a + x) == Width(a)
  {
    var s := a + x;
    assert s[0] == a[0] && (|a| < |s| ==> s[|a|] == x[0]);
    assert forall i :: 0 <= i < 4 && i < |a| ==> s[i] == a[i];
  }

  lemma ValidStep(s: string)
    requires s != ""
    ensures ValidString(s) <==> Width(s) > 0 && ValidString(s[Width(s)..])
  {
  }

  lemma DropFirst(a: string, x: string, w: nat)
    requires w <= |a|
    ensures (a + x)[w..] == a[w..] + x
  {
  }

  lemma {:induction false} ValidJoin(a: string, x: string)
    requires Begins(x)
    ensures ValidString(a + x) <==> ValidString(a) && ValidString(x)
    decreases |a|
  {
    hide Width, ValidString;
    NothingValid();
    if a == "" {
      assert a + x == x;
    } else {
      FirstRune(a, x);
      var w := Width(a);
      if w > 0 {
        ValidJoin(a[w..], x);
        DropFirst(a, x, w);
      }
      ValidStep(a);
      ValidStep(a + x);
    }
  }

  // ----- Escaped strings -----

  lemma {:induction false} EscapeJoin(s: string, t: string)
    ensures Escape(s + t) == Escape(s) + Escape(t)
  {
    hide EscapeChar;
    if s == "" {
      assert s + t == t;
    } else {
      assert (s + t)[1..] == s[1..] + t;
      EscapeJoin(s[1..], t);
      Assoc(EscapeChar(s[0]), Escape(s[1..]), Escape(t));
    }
  }

  /** The bytes in front of the first ASCII character. */
  function Leading(s: string): (n: nat)
    ensures n <= |s| && (n < |s| ==> Ascii(s[n]))
    ensures forall i :: 0 <= i < n ==> !Ascii(s[i])
  {
    if s == "" || Ascii(s[0]) then 0 else 1 + Leading(s[1..])
  }

  lemma {:induction false} OthersStay(s: string)
    requires forall i :: 0 <= i < |s| ==> !Ascii(s[i])
    ensures Escape(s) == s
  {
    if s != "" {
      OthersStay(s[1..]);
      assert s == [s[0]] + s[1..];
    }
  }

  lemma EscapedAscii(c: char)
    requires Ascii(c)
    ensures AllAscii(EscapeChar(c)) && EscapeChar(c) != ""
  {
  }

  /** Escaping leaves valid strings valid, and mends no others. */
  lemma {:induction false} EscapeValid(s: string)
    ensures ValidString(Escape(s)) <==> ValidString(s)
    ensures s != "" && Ascii(s[0]) ==> Begins(Escape(s))
    decreases |s|
  {
    hide EscapeChar, Width, ValidString;
    var n := Leading(s);
    if n == 0 {
      if s != "" {
        var t := s[1..];
        EscapeValid(t);
        EscapedAscii(s[0]);
        AsciiFront(EscapeChar(s[0]), Escape(t));
        AsciiFirst(s[0], t);
        assert s == [s[0]] + t;
      }
    } else {
      var a, b := s[..n], s[n..];
      assert s == a + b;
      OthersStay(a);
      EscapeJoin(a, b);
      EscapeValid(b);
      ValidJoin(a, b);
      ValidJoin(a, Escape(b));
    }
  }

  /** A part between ASCII characters. */
  lemma Enclosed(open: string, s: string, close: string)
    requires AllAscii(open) && AllAscii(close)
    ensures ValidString(open + s + close) <==> ValidString(s)
  {
    hide ValidString;
    ValidJoin(s, close);
    AsciiFront(close, "");
    assert close + "" == close;
    AsciiFront(open, s + close);
    Assoc(open, s, close);
    NothingValid();
  }

  lemma NothingValid()
    ensures ValidString("")
  {
  }

  lemma QuotedValid(s: string)
    ensures ValidString(Quoted(s)) <==> ValidString(s)
  {
    hide ValidString, Escape;
    EscapeValid(s);
    Enclosed("\"", Escape(s), "\"");
  }

  // ----- Values -----

  lemma {:induction false} CommasValid(parts: seq<string>)
    ensures ValidString(Commas(parts)) <==> forall i :: 0 <= i < |parts| ==> ValidString(parts[i])
  {
    hide ValidString;
    NothingValid();
    if |parts| > 1 {
      var rest := parts[1..];
      CommasFront(parts[0], rest);
      assert parts == [parts[0]] + rest;
      CommasValid(rest);
      Assoc(parts[0], ",", Commas(rest));
      ValidJoin(parts[0], "," + Commas(rest));
      AsciiFirst(',', Commas(rest));
    }
  }

  /** Every string in v, name or value, is valid UTF-8. */
  predicate AllValid(v: Value) {
    match v
    case Str(s) => ValidString(s)
    case Arr(items) => forall i :: 0 <= i < |items| ==> AllValid(items[i])
    case Strs(texts) => forall i :: 0 <= i < |texts| ==> ValidString(texts[i])
    case Obj(members) => forall i :: 0 <= i < |members| ==> ValidString(members[i].key) && AllValid(members[i].value)
    case _ => true
  }

  lemma MemberValid(m: Member, valid: bool)
    requires ValidString(Print(m.value)) <==> valid
    ensures ValidString(PrintMember(m)) <==> ValidString(m.key) && valid
  {
    hide ValidString, Quoted, Print;
    QuotedValid(m.key);
    Assoc(Quoted(m.key), ":", Print(m.value));
    ValidJoin(Quoted(m.key), ":" + Print(m.value));
    AsciiFirst(':', Print(m.value));
  }

  lemma SignedValid(n: int)
    ensures ValidString(Signed(n))
  {
    hide ValidString;
    AsciiFront(Signed(n), "");
    NothingValid();
    assert Signed(n) + "" == Signed(n);
  }

  lemma WordsValid()
    ensures ValidString("null") && ValidString("true") && ValidString("false")
  {
    hide ValidString;
    NothingValid();
    AsciiFront("null", "");
    AsciiFront("true", "");
    AsciiFront("false", "");
    assert "null" + "" == "null" && "true" + "" == "true" && "false" + "" == "false";
  }

  /** A print is valid UTF-8 exactly if every string it is made from is. */
  lemma {:induction false} PrintValid(v: Value)
    ensures ValidString(Print(v)) <==> AllValid(v)
    decreases v
  {
    hide ValidString, Commas, Quoted, Signed, PrintMember;
    match v
    case Null => WordsValid();
    case Bool(b) => WordsValid();
    case Int(n) => SignedValid(n);
    case Str(s) => QuotedValid(s);
    case Arr(items) =>
      Enclosed("[", Commas(PrintItems(items)), "]");
      CommasValid(PrintItems(items));
      forall i | 0 <= i < |items|
        ensures ValidString(PrintItems(items)[i]) <==> AllValid(items[i])
      {
        PrintValid(items[i]);
      }
    case Strs(texts) =>
      Enclosed("[", Commas(PrintTexts(texts)), "]");
      CommasValid(PrintTexts(texts));
      forall i | 0 <= i < |texts|
        ensures ValidString(PrintTexts(texts)[i]) <==> ValidString(texts[i])
      {
        QuotedValid(texts[i]);
      }
    case Obj(members) =>
      Enclosed("{", Commas(PrintMembers(members)), "}");
      CommasValid(PrintMembers(members));
      forall i | 0 <= i < |members|
        ensures ValidString(PrintMembers(members)[i]) <==> ValidString(members[i].key) && AllValid(members[i].value)
      {
        PrintValid(members[i].value);
        MemberValid(members[i], AllValid(members[i].value));
      }
  }

  // ----- Messages -----

  lemma RawValid(name: string, text: string, valid: bool)
    requires ValidString(text) <==> valid
    ensures ValidString(RawMember(name, text)) <==> ValidString(name) && valid
    ensures Begins("," + RawMember(name, text))
    ensures ValidString("," + RawMember(name, text)) <==> ValidString(name) && valid
  {
    hide ValidString;
    Enclosed("\"", name, "\"");
    Assoc(Raw(name), ":", text);
    ValidJoin(Raw(name), ":" + text);
    AsciiFirst(':', text);
    AsciiFirst(',', RawMember(name, text));
  }

  lemma FieldValid(name: string, value: string)
    requires AllAscii(name)
    ensures ValidString(Field(name, value)) <==> ValidString(value)
    ensures Begins(Field(name, value))
  {
    hide ValidString, RawMember, Raw;
    NothingValid();
    NameValid(name);
    if value != "" {
      RawStringValid(value);
      RawValid(name, Raw(value), ValidString(value));
    }
  }

  lemma NameValid(name: string)
    requires AllAscii(name)
    ensures ValidString(name)
  {
    hide ValidString;
    NothingValid();
    AsciiFront(name, "");
    assert name + "" == name;
  }

  lemma RawStringValid(value: string)
    ensures ValidString(Raw(value)) <==> ValidString(value)
  {
    hide ValidString;
    Enclosed("\"", value, "\"");
  }

  ghost predicate ValidHeaders(m: WsMessage) {
    && ValidString(m.action) && ValidString(m.topic) && ValidString(m.from) && ValidString(m.to) && ValidString(m.id)
    && ValidString(m.error) && ValidString(m.ackId)
  }

  lemma HeadersValid(m: WsMessage)
    ensures ValidString(Headers(m)) <==> ValidHeaders(m)
  {
    hide ValidString, RawMember, Raw, Field;
    NameValid("action");
    RawStringValid(m.action);
    RawValid("action", Raw(m.action), ValidString(m.action));
    var text := RawMember("action", Raw(m.action));
    FieldValid("topic", m.topic);
    ValidJoin(text, Field("topic", m.topic));
    text := text + Field("topic", m.topic);
    FieldValid("from", m.from);
    ValidJoin(text, Field("from", m.from));
    text := text + Field("from", m.from);
    FieldValid("to", m.to);
    ValidJoin(text, Field("to", m.to));
    text := text + Field("to", m.to);
    FieldValid("id", m.id);
    ValidJoin(text, Field("id", m.id));
    text := text + Field("id", m.id);
    FieldValid("error", m.error);
    ValidJoin(text, Field("error", m.error));
    text := text + Field("error", m.error);
    FieldValid("ack_id", m.ackId);
    ValidJoin(text, Field("ack_id", m.ackId));
  }

  lemma DataValid(data: Value)
    ensures ValidString(DataText(data)) <==> AllValid(data)
    ensures Begins(DataText(data))
  {
    hide ValidString, RawMember, Print;
    NothingValid();
    NameValid("data");
    PrintValid(data);
    RawValid("data", Print(data), AllValid(data));
  }

  /** An object under a name, from its parts. */
  lemma MapValid(name: string, parts: seq<string>)
    requires AllAscii(name)
    ensures var text := "," + RawMember(name, "{" + Commas(parts) + "}");
            && Begins(text)
            && (ValidString(text) <==> forall i :: 0 <= i < |parts| ==> ValidString(parts[i]))
  {
    hide ValidString, RawMember, Commas;
    NameValid(name);
    Enclosed("{", Commas(parts), "}");
    CommasValid(parts);
    RawValid(name, "{" + Commas(parts) + "}", ValidString(Commas(parts)));
  }

  lemma TruthValid(b: bool)
    ensures ValidString(Truth(b))
  {
    WordsValid();
  }

  lemma StatusValid(status: seq<Status>)
    ensures ValidString(StatusText(status)) <==> forall i :: 0 <= i < |status| ==> ValidString(status[i].client)
    ensures Begins(StatusText(status))
  {
    hide ValidString, RawMember, Commas, Truth;
    NothingValid();
    MapValid("status", StatusParts(status));
    forall i | 0 <= i < |status|
      ensures ValidString(StatusParts(status)[i]) <==> ValidString(status[i].client)
    {
      TruthValid(status[i].received);
      RawValid(status[i].client, Truth(status[i].received), true);
    }
  }

  ghost predicate ValidResponse(r: Response) {
    ValidString(r.client) && ValidString(r.ackId) && ValidString(r.clientId) && ValidString(r.error)
  }

  lemma ResponseValid(r: Response)
    ensures ValidString(ResponseText(r)) <==> ValidString(r.ackId) && ValidString(r.clientId) && ValidString(r.error)
  {
    hide ValidString, RawMember, Raw, Truth, Field;
    var a, b := RawMember("ack_id", Raw(r.ackId)), "," + RawMember("client_id", Raw(r.clientId));
    var c, e := "," + RawMember("success", Truth(r.success)), Field("error", r.error);
    NameValid("ack_id");
    NameValid("client_id");
    NameValid("success");
    RawStringValid(r.ackId);
    RawStringValid(r.clientId);
    TruthValid(r.success);
    RawValid("ack_id", Raw(r.ackId), ValidString(r.ackId));
    RawValid("client_id", Raw(r.clientId), ValidString(r.clientId));
    RawValid("success", Truth(r.success), true);
    FieldValid("error", r.error);
    ValidJoin(a, b);
    ValidJoin(a + b, c);
    ValidJoin(a + b + c, e);
    Enclosed("{", a + b + c + e, "}");
    assert ResponseText(r) == "{" + (a + b + c + e) + "}";
  }

  lemma ResponsesValid(responses: seq<Response>)
    ensures ValidString(ResponsesText(responses)) <==> forall i :: 0 <= i < |responses| ==> ValidResponse(responses[i])
    ensures Begins(ResponsesText(responses))
  {
    hide ValidString, RawMember, Commas, ResponseText;
    NothingValid();
    MapValid("responses", ResponseParts(responses));
    forall i | 0 <= i < |responses|
      ensures ValidString(ResponseParts(responses)[i]) <==> ValidResponse(responses[i])
    {
      var r := responses[i];
      ResponseValid(r);
      RawValid(r.client, ResponseText(r), ValidString(r.ackId) && ValidString(r.clientId) && ValidString(r.error));
    }
  }

  /** Every string of the message is valid UTF-8. */
  ghost predicate ValidMessage(m: WsMessage) {
    && ValidHeaders(m) && AllValid(m.data)
    && (forall i :: 0 <= i < |m.status| ==> ValidString(m.status[i].client))
    && (forall i :: 0 <= i < |m.responses| ==> ValidResponse(m.responses[i]))
  }

  /** The text of a message is valid UTF-8 exactly if every string of it is. */
  lemma TextValid(m: WsMessage)
    ensures ValidString(Text(m)) <==> ValidMessage(m)
  {
    hide ValidString, Headers, DataText, StatusText, ResponsesText, AllValid, ValidHeaders, ValidResponse;
    HeadersValid(m);
    DataValid(m.data);
    StatusValid(m.status);
    ResponsesValid(m.responses);
    var h, d, st, rs := Headers(m), DataText(m.data), StatusText(m.status), ResponsesText(m.responses);
    ValidJoin(h, d);
    ValidJoin(h + d, st);
    ValidJoin(h + d + st, rs);
    Enclosed("{", h + d + st + rs, "}");
    assert Text(m) == "{" + (h + d + st + rs) + "}";
  }

  /** A JSON text that is read as a value to its end: UTF-8, and the grammar. */
  ghost predicate IsText(text: string, j: Json) {
    ValidString(text) && ParseValue(text) == Some(Parsed(j, ""))
  }

  /** Exactly the values with valid strings are printed as JSON texts, and those texts are read back. */
  lemma PrintedExactly(v: Value)
    ensures IsText(Print(v), Erase(v)) <==> AllValid(v)
  {
    hide ValidString, Print, ParseValue, Erase, AllValid;
    PrintValid(v);
    ValueBack(v, "");
    assert Print(v) + "" == Print(v);
  }

  /** Exactly the plain messages with valid strings are JSON texts that are read back. */
  lemma MessageTextExactly(m: WsMessage)
    requires Maps(m)
    ensures ValidString(Text(m)) && ReadBack(m, "") <==> PlainMessage(m) && ValidMessage(m)
  {
    hide ValidString, Text, ReadBack, PlainMessage, ValidMessage, Maps;
    TextValid(m);
    MessageRecoveredExactly(m, "");
  }
}
