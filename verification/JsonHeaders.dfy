/** When the unescaped strings of a bus message can be read back. */
module JsonHeaders {
  import opened Options
  import opened JsonText
  import opened JsonParser
  import opened JsonRoundTrip
  import opened JsonMessages
  import opened Sequences

  predicate PlainChar(c: char) {
    c != '"' && c != '\\' && c >= ' '
  }

  /** No quote, no backslash, no control character. */
  predicate Plain(s: string) {
    forall i :: 0 <= i < |s| ==> PlainChar(s[i])
  }

  lemma {:induction false} PlainEscape(s: string)
    requires Plain(s)
    ensures Escape(s) == s
  {
    if s != "" {
      PlainEscape(s[1..]);
      assert s == [s[0]] + s[1..];
    }
  }

  // ----- One string -----

  /** At most as many characters come out as go in, and one fewer for the quote; exactly so many only of a plain string. */
  lemma {:induction false} NothingGained(s: string)
    requires ParseChars(s).Some?
    ensures var p := ParseChars(s).value;
            && |p.value| + |p.rest| + 1 <= |s|
            && (|p.value| + |p.rest| + 1 == |s| ==> Plain(p.value))
    decreases |s|
  {
    if s[0] == '"' {
    } else if s[0] == '\\' {
      var e := ParseEscape(s[1..]).value;
      NothingGained(e.rest);
    } else {
      NothingGained(s[1..]);
    }
  }

  /** A string between quotes is read back as itself exactly when it is plain. */
  lemma RawBackExactly(s: string, rest: string)
    ensures ParseChars(s + "\"" + rest) == Some(Parsed(s, rest)) <==> Plain(s)
  {
    if Plain(s) {
      PlainEscape(s);
      StringBack(s, rest);
    } else if ParseChars(s + "\"" + rest) == Some(Parsed(s, rest)) {
      NothingGained(s + "\"" + rest);
      assert false;
    }
  }

  // ----- A whole message -----

  ghost predicate PlainMessage(m: WsMessage) {
    && Plain(m.action) && Plain(m.topic) && Plain(m.from) && Plain(m.to) && Plain(m.id) && Plain(m.error) && Plain(m.ackId)
    && (forall i :: 0 <= i < |m.status| ==> Plain(m.status[i].client))
    && (forall i :: 0 <= i < |m.responses| ==> PlainResponse(m.responses[i]))
  }

  ghost predicate PlainResponse(r: Response) {
    Plain(r.client) && Plain(r.ackId) && Plain(r.clientId) && Plain(r.error)
  }

  function Header(name: string, value: string): seq<Member> {
    if value == "" then [] else [Member(name, Str(value))]
  }

  function StatusValue(status: seq<Status>): Value {
    Obj(seq(|status|, i requires 0 <= i < |status| => Member(status[i].client, Bool(status[i].received))))
  }

  function ResponseValue(r: Response): Value {
    Obj([Member("ack_id", Str(r.ackId)), Member("client_id", Str(r.clientId)), Member("success", Bool(r.success))]
        + Header("error", r.error))
  }

  function ResponsesValue(responses: seq<Response>): Value {
    Obj(seq(|responses|, i requires 0 <= i < |responses| => Member(responses[i].client, ResponseValue(responses[i]))))
  }

  function HeaderMembers(m: WsMessage): seq<Member> {
    [Member("action", Str(m.action))] + Header("topic", m.topic) + Header("from", m.from) + Header("to", m.to)
    + Header("id", m.id) + Header("error", m.error) + Header("ack_id", m.ackId)
  }

  /** The members a message stands for. */
  function Members(m: WsMessage): seq<Member> {
    HeaderMembers(m)
    + Section("data", m.data == Null, m.data)
    + Section("status", m.status == [], StatusValue(m.status))
    + Section("responses", m.responses == [], ResponsesValue(m.responses))
  }

  /** A comma and a member, over and over. */
  function Tails(members: seq<Member>): string {
    if members == [] then "" else Tails(members[..|members| - 1]) + ("," + PrintMember(members[|members| - 1]))
  }

  lemma {:induction false} TailsAppend(ms: seq<Member>, ms': seq<Member>)
    ensures Tails(ms + ms') == Tails(ms) + Tails(ms')
  {
    if ms' == [] {
      assert ms + ms' == ms && Tails(ms) + "" == Tails(ms);
    } else {
      var front, m := ms'[..|ms'| - 1], ms'[|ms'| - 1];
      assert (ms + ms')[..|ms + ms'| - 1] == ms + front;
      TailsAppend(ms, front);
      Assoc(Tails(ms), Tails(front), "," + PrintMember(m));
    }
  }

  lemma {:induction false} CommasAsTails(m: Member, ms: seq<Member>)
    ensures Commas(PrintMembers([m] + ms)) == PrintMember(m) + Tails(ms)
  {
    hide PrintMember;
    var all := [m] + ms;
    if ms == [] {
      assert all == [m] && PrintMembers(all) == [PrintMember(m)];
      assert PrintMember(m) + "" == PrintMember(m);
    } else {
      var front, last := ms[..|ms| - 1], ms[|ms| - 1];
      CommasAsTails(m, front);
      assert PrintMembers(all)[..|all| - 1] == PrintMembers([m] + front);
      Assoc(PrintMember(m), Tails(front), "," + PrintMember(last));
      Assoc(PrintMember(m) + Tails(front), ",", PrintMember(last));
    }
  }

  lemma OneTail(m: Member)
    ensures Tails([m]) == "," + PrintMember(m) && Tails([]) == ""
  {
    assert [m][..0] == [];
    assert "" + ("," + PrintMember(m)) == "," + PrintMember(m);
  }

  lemma RawIsMember(name: string, value: string)
    requires Plain(name) && Plain(value)
    ensures RawMember(name, Raw(value)) == PrintMember(Member(name, Str(value)))
  {
    PlainEscape(name);
    PlainEscape(value);
  }

  lemma FieldIsTail(name: string, value: string)
    requires Plain(name) && Plain(value)
    ensures Field(name, value) == Tails(Header(name, value))
  {
    hide RawMember, Raw, PrintMember;
    RawIsMember(name, value);
    OneTail(Member(name, Str(value)));
  }

  lemma CommasExtend(ms: seq<Member>, ms': seq<Member>)
    requires ms != []
    ensures Commas(PrintMembers(ms + ms')) == Commas(PrintMembers(ms)) + Tails(ms')
  {
    hide Commas, PrintMembers;
    var m, t := ms[0], ms[1..];
    assert ms == [m] + t && ms + ms' == [m] + (t + ms');
    CommasAsTails(m, t);
    CommasAsTails(m, t + ms');
    TailsAppend(t, ms');
    Assoc(PrintMember(m), Tails(t), Tails(ms'));
  }

  lemma OneComma(m: Member)
    ensures Commas(PrintMembers([m])) == PrintMember(m)
  {
    hide PrintMember;
    assert PrintMembers([m]) == [PrintMember(m)];
  }

  lemma BoolIsMember(name: string, b: bool)
    requires Plain(name)
    ensures RawMember(name, Truth(b)) == PrintMember(Member(name, Bool(b)))
  {
    PlainEscape(name);
  }

  lemma StatusIsPrint(status: seq<Status>)
    requires forall i :: 0 <= i < |status| ==> Plain(status[i].client)
    ensures "{" + Commas(StatusParts(status)) + "}" == Print(StatusValue(status))
  {
    hide Commas, PrintMember, RawMember;
    var v := StatusValue(status);
    forall i | 0 <= i < |status|
      ensures StatusParts(status)[i] == PrintMembers(v.members)[i]
    {
      BoolIsMember(status[i].client, status[i].received);
    }
    assert StatusParts(status) == PrintMembers(v.members);
  }

  /** text is the members with commas between them. */
  ghost predicate Joined(ms: seq<Member>, text: string) {
    ms != [] && text == Commas(PrintMembers(ms))
  }

  lemma AddTail(ms: seq<Member>, text: string, ms': seq<Member>, text': string)
    requires Joined(ms, text) && text' == Tails(ms')
    ensures Joined(ms + ms', text + text')
  {
    hide Commas, PrintMembers, Tails;
    CommasExtend(ms, ms');
  }

  lemma AddField(ms: seq<Member>, text: string, name: string, value: string)
    requires Joined(ms, text) && Plain(name) && Plain(value)
    ensures Joined(ms + Header(name, value), text + Field(name, value))
  {
    hide Joined, Header, Field, Plain;
    FieldIsTail(name, value);
    AddTail(ms, text, Header(name, value), Field(name, value));
  }

  lemma AddMember(ms: seq<Member>, text: string, m: Member)
    requires Joined(ms, text)
    ensures Joined(ms + [m], text + ("," + PrintMember(m)))
  {
    hide Joined, PrintMember;
    OneTail(m);
    AddTail(ms, text, [m], "," + PrintMember(m));
  }

  lemma First(m: Member)
    ensures Joined([m], PrintMember(m))
  {
    OneComma(m);
  }

  lemma NamesPlain()
    ensures Plain("action") && Plain("topic") && Plain("from") && Plain("to") && Plain("id") && Plain("error")
    ensures Plain("ack_id") && Plain("client_id") && Plain("success")
  {
  }

  lemma JoinedObject(ms: seq<Member>, text: string)
    requires Joined(ms, text)
    ensures Print(Obj(ms)) == "{" + text + "}"
  {
    hide Commas, PrintMembers;
  }

  lemma ResponseIsPrint(r: Response)
    requires PlainResponse(r)
    ensures ResponseText(r) == Print(ResponseValue(r))
  {
    hide Plain, PrintMember, RawMember, Raw, Truth, Field, Header, Joined, Print;
    var a, b, c := Member("ack_id", Str(r.ackId)), Member("client_id", Str(r.clientId)), Member("success", Bool(r.success));
    NamesPlain();
    RawIsMember("ack_id", r.ackId);
    RawIsMember("client_id", r.clientId);
    BoolIsMember("success", r.success);
    First(a);
    AddMember([a], PrintMember(a), b);
    var text := PrintMember(a) + ("," + PrintMember(b));
    AddMember([a] + [b], text, c);
    text := text + ("," + PrintMember(c));
    AddField([a] + [b] + [c], text, "error", r.error);
    JoinedObject([a] + [b] + [c] + Header("error", r.error), text + Field("error", r.error));
    assert [a, b, c] == [a] + [b] + [c];
    ResponseShape(PrintMember(a), PrintMember(b), PrintMember(c), Field("error", r.error));
  }

  lemma ResponseShape(a: string, b: string, c: string, e: string)
    ensures "{" + a + "," + b + "," + c + e + "}" == "{" + (a + ("," + b) + ("," + c) + e) + "}"
  {
  }

  lemma ResponsesIsPrint(responses: seq<Response>)
    requires forall i :: 0 <= i < |responses| ==> PlainResponse(responses[i])
    ensures "{" + Commas(ResponseParts(responses)) + "}" == Print(ResponsesValue(responses))
  {
    hide Commas, ResponseText, ResponseValue, Plain;
    var v := ResponsesValue(responses);
    forall i | 0 <= i < |responses|
      ensures ResponseParts(responses)[i] == PrintMembers(v.members)[i]
    {
      ResponseIsPrint(responses[i]);
      PlainEscape(responses[i].client);
    }
    assert ResponseParts(responses) == PrintMembers(v.members);
  }

  lemma SectionIsTail(name: string, v: Value)
    requires Plain(name)
    ensures "," + RawMember(name, Print(v)) == Tails([Member(name, v)])
  {
    PlainEscape(name);
    OneTail(Member(name, v));
  }

  function Section(name: string, none: bool, v: Value): seq<Member> {
    if none then [] else [Member(name, v)]
  }

  lemma AddSection(ms: seq<Member>, text: string, name: string, none: bool, v: Value, section: string)
    requires Joined(ms, text) && Plain(name)
    requires section == if none then "" else "," + RawMember(name, Print(v))
    ensures Joined(ms + Section(name, none, v), text + section)
  {
    hide Joined, RawMember, Print, Plain;
    SectionIsTail(name, v);
    NoTail();
    AddTail(ms, text, Section(name, none, v), section);
  }

  lemma NoTail()
    ensures Tails([]) == ""
  {
  }

  lemma HeadersAreMembers(m: WsMessage)
    requires PlainMessage(m)
    ensures Joined(HeaderMembers(m), Headers(m))
  {
    hide Plain, Field, Header, RawMember, Raw, PrintMember, Joined;
    NamesPlain();
    var ms, text := [Member("action", Str(m.action))], RawMember("action", Raw(m.action));
    RawIsMember("action", m.action);
    First(ms[0]);
    AddField(ms, text, "topic", m.topic);
    ms, text := ms + Header("topic", m.topic), text + Field("topic", m.topic);
    AddField(ms, text, "from", m.from);
    ms, text := ms + Header("from", m.from), text + Field("from", m.from);
    AddField(ms, text, "to", m.to);
    ms, text := ms + Header("to", m.to), text + Field("to", m.to);
    AddField(ms, text, "id", m.id);
    ms, text := ms + Header("id", m.id), text + Field("id", m.id);
    AddField(ms, text, "error", m.error);
    ms, text := ms + Header("error", m.error), text + Field("error", m.error);
    AddField(ms, text, "ack_id", m.ackId);
    ms, text := ms + Header("ack_id", m.ackId), text + Field("ack_id", m.ackId);
  }

  /** The text of a plain message is the print of its members. */
  lemma TextIsPrint(m: WsMessage)
    requires PlainMessage(m)
    ensures Text(m) == Print(Obj(Members(m)))
  {
    hide Headers, HeaderMembers, Joined, Print, RawMember, StatusValue, ResponsesValue, StatusParts, ResponseParts, Commas;
    hide PlainResponse;
    HeadersAreMembers(m);
    StatusIsPrint(m.status);
    ResponsesIsPrint(m.responses);
    var ms, text := HeaderMembers(m), Headers(m);
    AddSection(ms, text, "data", m.data == Null, m.data, DataText(m.data));
    ms, text := ms + Section("data", m.data == Null, m.data), text + DataText(m.data);
    AddSection(ms, text, "status", m.status == [], StatusValue(m.status), StatusText(m.status));
    ms, text := ms + Section("status", m.status == [], StatusValue(m.status)), text + StatusText(m.status);
    AddSection(ms, text, "responses", m.responses == [], ResponsesValue(m.responses), ResponsesText(m.responses));
    ms, text := ms + Section("responses", m.responses == [], ResponsesValue(m.responses)), text + ResponsesText(m.responses);
    JoinedObject(ms, text);
    MessageShape(Headers(m), DataText(m.data), StatusText(m.status), ResponsesText(m.responses));
  }

  lemma MessageShape(h: string, d: string, s: string, r: string)
    ensures "{" + h + d + s + r + "}" == "{" + (h + d + s + r) + "}"
  {
  }
}
