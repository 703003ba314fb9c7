/** A bus message is read back as itself exactly when none of its unescaped strings needs an escape. */
module JsonMessageExact {
  import opened JsonHeaders
  import opened JsonMessageBack
  import opened JsonMessages
  import opened JsonParser
  import opened JsonRoundTrip
  import opened JsonShortest
  import opened JsonSqueeze
  import opened JsonText
  import opened Options
  import opened Sequences

  /** A string as it stands is as short as can be exactly if it is plain, and too short if it is not. */
  lemma {:induction false} PlainLeast(s: string)
    ensures |s| <= LeastChars(s)
    ensures |s| == LeastChars(s) <==> Plain(s)
  {
    if s != "" {
      PlainLeast(s[1..]);
      assert s == [s[0]] + s[1..];
    }
  }

  /**
   text stands for the members ms, each with one character beside it: it is not
   longer than they need to be, and as long exactly if all strings in it are plain.
   */
  predicate Tight(text: string, ms: seq<Member>, plain: bool) {
    |text| <= LeastMembers(ms) && (|text| == LeastMembers(ms) <==> plain)
  }

  lemma TightBoth(text: string, ms: seq<Member>, plain: bool, text': string, ms': seq<Member>, plain': bool)
    requires Tight(text, ms, plain) && Tight(text', ms', plain')
    ensures Tight(text + text', ms + ms', plain && plain')
  {
    LeastMembersAppend(ms, ms');
  }

  lemma TightMember(name: string, text: string, v: Value, plain: bool)
    requires |text| <= Least(v) && (|text| == Least(v) <==> plain)
    ensures Tight("," + RawMember(name, text), [Member(name, v)], Plain(name) && plain)
  {
    hide Least;
    PlainLeast(name);
    LeastMembersFirst(Member(name, v), []);
    assert [Member(name, v)] + [] == [Member(name, v)];
  }

  lemma TightString(name: string, value: string)
    requires Plain(name)
    ensures Tight("," + RawMember(name, Raw(value)), [Member(name, Str(value))], Plain(value))
  {
    hide Plain;
    PlainLeast(value);
    TightMember(name, Raw(value), Str(value), Plain(value));
  }

  lemma TightField(name: string, value: string)
    requires Plain(name)
    ensures Tight(Field(name, value), Header(name, value), Plain(value))
  {
    hide RawMember, Raw;
    if value != "" {
      TightString(name, value);
    }
  }

  lemma TightBool(name: string, b: bool)
    ensures Tight("," + RawMember(name, Truth(b)), [Member(name, Bool(b))], Plain(name))
  {
    TightMember(name, Truth(b), Bool(b), true);
  }

  // ----- Maps -----

  ghost predicate PlainClients(status: seq<Status>) {
    forall i :: 0 <= i < |status| ==> Plain(status[i].client)
  }

  lemma {:induction false} StatusLengths(status: seq<Status>)
    ensures Lengths(StatusParts(status)) <= LeastMembers(StatusValue(status).members)
    ensures Lengths(StatusParts(status)) == LeastMembers(StatusValue(status).members) <==> PlainClients(status)
  {
    hide Plain, RawMember, LeastMember;
    if status != [] {
      var m := StatusValue(status).members;
      assert StatusParts(status)[1..] == StatusParts(status[1..]);
      assert m == [m[0]] + StatusValue(status[1..]).members;
      LeastMembersFirst(m[0], m[1..]);
      assert m[1..] == StatusValue(status[1..]).members;
      StatusLengths(status[1..]);
      TightBool(status[0].client, status[0].received);
      LeastMembersFirst(m[0], []);
      assert [m[0]] + [] == [m[0]];
      assert status == [status[0]] + status[1..];
    }
  }

  /** The text of an object with these parts, against the members it stands for. */
  lemma TightObject(parts: seq<string>, ms: seq<Member>, plain: bool)
    requires parts != [] && ms != []
    requires Lengths(parts) <= LeastMembers(ms) && (Lengths(parts) == LeastMembers(ms) <==> plain)
    ensures var text := "{" + Commas(parts) + "}";
            |text| <= Least(Obj(ms)) && (|text| == Least(Obj(ms)) <==> plain)
  {
    hide Commas, Lengths, LeastMembers;
    CommasLength(parts);
  }

  lemma TightStatus(status: seq<Status>)
    ensures Tight(StatusText(status), Section("status", status == [], StatusValue(status)), PlainClients(status))
  {
    hide Commas, Lengths, LeastMembers, StatusParts, Least, RawMember, Plain;
    NoTight();
    if status != [] {
      StatusLengths(status);
      TightObject(StatusParts(status), StatusValue(status).members, PlainClients(status));
      SectionNames();
      TightMember("status", "{" + Commas(StatusParts(status)) + "}", StatusValue(status), PlainClients(status));
    }
  }

  lemma NoTight()
    ensures Tight("", [], true)
  {
  }

  lemma SectionNames()
    ensures Plain("data") && Plain("status") && Plain("responses")
  {
  }

  lemma TightResponse(r: Response)
    ensures var plain := Plain(r.ackId) && Plain(r.clientId) && Plain(r.error);
            |ResponseText(r)| <= Least(ResponseValue(r)) && (|ResponseText(r)| == Least(ResponseValue(r)) <==> plain)
  {
    hide RawMember, Raw, Truth, Field, Header, LeastMembers, Plain;
    NamesPlain();
    TightString("ack_id", r.ackId);
    TightString("client_id", r.clientId);
    TightBool("success", r.success);
    TightField("error", r.error);
    var a, b := [Member("ack_id", Str(r.ackId))], [Member("client_id", Str(r.clientId))];
    var c, e := [Member("success", Bool(r.success))], Header("error", r.error);
    var ta, tb := "," + RawMember("ack_id", Raw(r.ackId)), "," + RawMember("client_id", Raw(r.clientId));
    var tc, te := "," + RawMember("success", Truth(r.success)), Field("error", r.error);
    TightBoth(ta, a, Plain(r.ackId), tb, b, Plain(r.clientId));
    TightBoth(ta + tb, a + b, Plain(r.ackId) && Plain(r.clientId), tc, c, true);
    TightBoth(ta + tb + tc, a + b + c, Plain(r.ackId) && Plain(r.clientId), te, e, Plain(r.error));
    assert ResponseValue(r).members == a + b + c + e;
    assert |ResponseText(r)| == 1 + |ta + tb + tc + te|;
  }

  ghost predicate PlainResponses(responses: seq<Response>) {
    forall i :: 0 <= i < |responses| ==> PlainResponse(responses[i])
  }

  lemma {:induction false} ResponsesLengths(responses: seq<Response>)
    ensures Lengths(ResponseParts(responses)) <= LeastMembers(ResponsesValue(responses).members)
    ensures PlainResponses(responses) <==> Lengths(ResponseParts(responses)) == LeastMembers(ResponsesValue(responses).members)
  {
    hide Plain, RawMember, LeastMember, ResponseText, ResponseValue, Least;
    if responses != [] {
      var m := ResponsesValue(responses).members;
      var r := responses[0];
      assert ResponseParts(responses)[1..] == ResponseParts(responses[1..]);
      assert m == [m[0]] + m[1..] && m[1..] == ResponsesValue(responses[1..]).members;
      LeastMembersFirst(m[0], m[1..]);
      ResponsesLengths(responses[1..]);
      TightResponse(r);
      TightMember(r.client, ResponseText(r), ResponseValue(r), Plain(r.ackId) && Plain(r.clientId) && Plain(r.error));
      LeastMembersFirst(m[0], []);
      assert [m[0]] + [] == [m[0]];
      assert responses == [r] + responses[1..];
    }
  }

  lemma TightResponses(responses: seq<Response>)
    ensures Tight(ResponsesText(responses), Section("responses", responses == [], ResponsesValue(responses)),
                  PlainResponses(responses))
  {
    hide Commas, Lengths, LeastMembers, ResponseParts, Least, RawMember, Plain;
    NoTight();
    if responses != [] {
      ResponsesLengths(responses);
      TightObject(ResponseParts(responses), ResponsesValue(responses).members, PlainResponses(responses));
      SectionNames();
      TightMember("responses", "{" + Commas(ResponseParts(responses)) + "}", ResponsesValue(responses),
                  PlainResponses(responses));
    }
  }

  /** What the data takes with short escapes, its name included. */
  function DataSize(data: Value): nat {
    if data == Null then 0 else 8 + Least(data)
  }

  lemma DataNeeds(data: Value)
    ensures LeastMembers(Section("data", data == Null, data)) == DataSize(data)
  {
    hide Least;
    if data != Null {
      var m := Member("data", data);
      SectionNames();
      PlainLeast("data");
      LeastMembersFirst(m, []);
      assert [m] + [] == [m];
    }
  }

  ghost predicate PlainHeaders(m: WsMessage) {
    Plain(m.action) && Plain(m.topic) && Plain(m.from) && Plain(m.to) && Plain(m.id) && Plain(m.error) && Plain(m.ackId)
  }

  lemma TightHeaders(m: WsMessage)
    ensures Tight("," + Headers(m), HeaderMembers(m), PlainHeaders(m))
  {
    hide RawMember, Raw, Field, Header, LeastMembers, Plain, Tight;
    NamesPlain();
    var ms, text, plain := [Member("action", Str(m.action))], "," + RawMember("action", Raw(m.action)), Plain(m.action);
    TightString("action", m.action);
    TightField("topic", m.topic);
    TightBoth(text, ms, plain, Field("topic", m.topic), Header("topic", m.topic), Plain(m.topic));
    ms, text, plain := ms + Header("topic", m.topic), text + Field("topic", m.topic), plain && Plain(m.topic);
    TightField("from", m.from);
    TightBoth(text, ms, plain, Field("from", m.from), Header("from", m.from), Plain(m.from));
    ms, text, plain := ms + Header("from", m.from), text + Field("from", m.from), plain && Plain(m.from);
    TightField("to", m.to);
    TightBoth(text, ms, plain, Field("to", m.to), Header("to", m.to), Plain(m.to));
    ms, text, plain := ms + Header("to", m.to), text + Field("to", m.to), plain && Plain(m.to);
    TightField("id", m.id);
    TightBoth(text, ms, plain, Field("id", m.id), Header("id", m.id), Plain(m.id));
    ms, text, plain := ms + Header("id", m.id), text + Field("id", m.id), plain && Plain(m.id);
    TightField("error", m.error);
    TightBoth(text, ms, plain, Field("error", m.error), Header("error", m.error), Plain(m.error));
    ms, text, plain := ms + Header("error", m.error), text + Field("error", m.error), plain && Plain(m.error);
    TightField("ack_id", m.ackId);
    TightBoth(text, ms, plain, Field("ack_id", m.ackId), Header("ack_id", m.ackId), Plain(m.ackId));
    ms, text := ms + Header("ack_id", m.ackId), text + Field("ack_id", m.ackId);
    assert text == "," + Headers(m);
  }

  /** The text in front of the data, and behind it. */
  function TextBefore(m: WsMessage): string {
    "{" + Headers(m) + if m.data == Null then "" else ",\"data\":"
  }

  function TextBehind(m: WsMessage): string {
    StatusText(m.status) + ResponsesText(m.responses) + "}"
  }

  lemma TextParts(m: WsMessage)
    ensures Text(m) == TextBefore(m) + ((if m.data == Null then "" else Print(m.data)) + TextBehind(m))
  {
    hide Headers, StatusText, ResponsesText, Print;
    var h, d, st, rs := "{" + Headers(m), DataText(m.data), StatusText(m.status), ResponsesText(m.responses);
    if m.data == Null {
      assert h + "" + st + rs + "}" == h + ("" + (st + rs + "}"));
    } else {
      var p := Print(m.data);
      assert d == ",\"data\":" + p by {
        assert Raw("data") + ":" == "\"data\":";
        Assoc(",", Raw("data") + ":", p);
      }
      assert h + (",\"data\":" + p) + st + rs + "}" == h + ",\"data\":" + (p + (st + rs + "}"));
    }
  }

  /** The size of a message, its data taken with short escapes. */
  function Size(m: WsMessage): nat {
    2 + |Headers(m)| + DataSize(m.data) + |StatusText(m.status)| + |ResponsesText(m.responses)|
  }

  /** The size of a message is not more than its members need, and as much exactly if the message is plain. */
  lemma TightText(m: WsMessage)
    ensures Size(m) <= 1 + LeastMembers(Members(m))
    ensures Size(m) == 1 + LeastMembers(Members(m)) <==> PlainMessage(m)
  {
    hide Headers, HeaderMembers, StatusText, ResponsesText, Section, StatusValue, ResponsesValue, LeastMembers, Plain,
      PlainResponse, DataSize;
    TightHeaders(m);
    DataNeeds(m.data);
    TightStatus(m.status);
    TightResponses(m.responses);
    var data := Section("data", m.data == Null, m.data);
    var status := Section("status", m.status == [], StatusValue(m.status));
    var responses := Section("responses", m.responses == [], ResponsesValue(m.responses));
    LeastMembersAppend(HeaderMembers(m), data);
    LeastMembersAppend(HeaderMembers(m) + data, status);
    LeastMembersAppend(HeaderMembers(m) + data + status, responses);
  }

  // ----- Parts written as they stand -----

  /** A part whose last character belongs to no escape with a short form, and opens none. */
  predicate Solid(p: string) {
    p != "" && p[|p| - 1] in {'}', ':'}
  }

  lemma {:induction false} RawSqueezed(p: string, t: string)
    requires p == "" || Solid(p)
    ensures |Squeeze(p + t)| <= |p| + |Squeeze(t)|
    decreases |p|
  {
    hide Squeeze, HasShort, Solid;
    if p == "" {
      assert p + t == t;
    } else {
      var n := if p[0] != '\\' then 1 else if HasShort(p + t) then 6 else 2;
      FirstPiece(p, t, n);
      RawSqueezed(p[n..], t);
      assert (p + t)[n..] == p[n..] + t;
    }
  }

  lemma FirstPiece(p: string, t: string, n: nat)
    requires Solid(p) && n == if p[0] != '\\' then 1 else if HasShort(p + t) then 6 else 2
    ensures n <= |p| && (p[n..] == "" || Solid(p[n..]))
    ensures |Squeeze(p + t)| <= n + |Squeeze((p + t)[n..])|
  {
    if n == 6 {
      ShortChars(p + t, if |p| <= 6 then |p| - 1 else 5);
    }
  }

  lemma ShortChars(s: string, i: nat)
    requires HasShort(s) && i < 6
    ensures s[i] !in {'}', ':'}
  {
    assert i > 0 ==> s[i] == s[1..6][i - 1];
  }

  lemma SolidBehind(p: string, p': string)
    requires Solid(p')
    ensures Solid(p + p')
  {
  }

  lemma SolidParts(m: WsMessage)
    ensures Solid(TextBehind(m)) && (m.data != Null ==> Solid(TextBefore(m)))
  {
    hide Headers, StatusText, ResponsesText;
  }

  /** With short escapes the text of a message, whatever follows it, takes no more than its size. */
  lemma TextSqueezed(m: WsMessage, rest: string)
    ensures |Squeeze(Text(m) + rest)| <= Size(m) + |Squeeze(rest)|
  {
    hide Squeeze, Text, Headers, StatusText, ResponsesText, Print, Least, Solid;
    TextParts(m);
    SolidParts(m);
    RawSqueezed(TextBehind(m), rest);
    var front, back := TextBefore(m), TextBehind(m);
    if m.data == Null {
      SolidBehind(front, back);
      RawSqueezed(front + back, rest);
      assert front + ("" + back) == front + back;
    } else {
      var data := Print(m.data);
      SqueezesPrint(m.data);
      RawSqueezed(front, data + (back + rest));
      assert front + (data + back) + rest == front + (data + (back + rest));
    }
  }

  // ----- What a recovered message holds -----

  /** status and responses are maps, and so is every object in the data. */
  predicate Maps(m: WsMessage) {
    && Distinct(m.data)
    && (forall i, j :: 0 <= i < j < |m.status| ==> m.status[i].client != m.status[j].client)
    && (forall i, j :: 0 <= i < j < |m.responses| ==> m.responses[i].client != m.responses[j].client)
  }

  lemma ResponseDistinct(r: Response)
    ensures Distinct(ResponseValue(r))
  {
    NamesDistinct(6, 4);
    assert "ack_id"[0] == 'a' && "client_id"[0] == 'c' && "success"[0] == 's' && "error"[0] == 'e';
  }

  lemma PartDistinct(m: WsMessage, i: nat)
    requires Maps(m) && i < 10 && Parts(m)[i] != []
    ensures Distinct(Parts(m)[i][0].value)
  {
    hide ResponseValue;
    forall k | 0 <= k < |m.responses|
      ensures Distinct(ResponseValue(m.responses[k]))
    {
      ResponseDistinct(m.responses[k]);
    }
  }

  function NameOf(i: nat): string
    requires i < 10
  {
    NAMES[i]
  }

  ghost predicate OneOf(key: string, n: nat)
    requires n <= 10
  {
    exists i :: 0 <= i < n && key == NameOf(i)
  }

  lemma OneOfMore(key: string, n: nat)
    requires n < 10 && OneOf(key, n)
    ensures OneOf(key, n + 1)
  {
    hide NameOf;
    var i :| 0 <= i < n && key == NameOf(i);
    assert key == NameOf(i);
  }

  /** The keys of these members are among the first n names. */
  ghost predicate Named(ms: seq<Member>, n: nat)
    requires n <= 10
  {
    forall k :: 0 <= k < |ms| ==> OneOf(ms[k].key, n)
  }

  lemma NamedMore(ms: seq<Member>, n: nat)
    requires n < 10 && Named(ms, n)
    ensures Named(ms, n + 1)
  {
    hide OneOf;
    forall k | 0 <= k < |ms|
      ensures OneOf(ms[k].key, n + 1)
    {
      OneOfMore(ms[k].key, n);
    }
  }

  lemma HeldMore(ms: seq<Member>, part: seq<Member>, fields: map<string, Json>, n: nat)
    requires n < 10 && Held(ms, fields) && Named(ms, n)
    requires |part| <= 1 && (part != [] ==>
      part[0].key == NAMES[n] && Distinct(part[0].value) && NAMES[n] in fields && fields[NAMES[n]] == Erase(part[0].value))
    ensures Held(ms + part, fields) && Named(ms + part, n + 1)
  {
    hide Erase, Distinct;
    if part == [] {
      assert ms + part == ms;
      NamedMore(ms, n);
    } else {
      assert part[0].key == NameOf(n);
      NamedMore(ms, n);
      assert (ms + part)[..|ms|] == ms;
      forall k | 0 <= k < |ms|
        ensures ms[k].key != NAMES[n]
      {
        var i :| 0 <= i < n && ms[k].key == NameOf(i);
        NamesDistinct(i, n);
      }
    }
  }

  lemma {:induction false} FlatHeld(m: WsMessage, fields: map<string, Json>, n: nat)
    requires n <= 10 && Maps(m)
    requires forall i :: 0 <= i < n && Parts(m)[i] != [] ==>
               NAMES[i] in fields && fields[NAMES[i]] == Erase(Parts(m)[i][0].value)
    ensures Held(Flat(Parts(m)[..n]), fields) && Named(Flat(Parts(m)[..n]), n)
  {
    hide Parts, Erase, Distinct, Maps;
    if n > 0 {
      FlatHeld(m, fields, n - 1);
      FlatNext(Parts(m), n - 1);
      PartsNamed(m, n - 1);
      if Parts(m)[n - 1] != [] {
        PartDistinct(m, n - 1);
      }
      HeldMore(Flat(Parts(m)[..n - 1]), Parts(m)[n - 1], fields, n - 1);
    }
  }

  lemma HeldMembers(m: WsMessage, fields: map<string, Json>)
    requires Maps(m) && Recovered(fields, m)
    ensures Held(Members(m), fields)
  {
    hide Erase, Held, Maps, Flat, Members, StatusValue, ResponsesValue, NAMES;
    MembersAreParts(m);
    HeldParts(m, fields);
    FlatHeld(m, fields, 10);
  }

  lemma HeldParts(m: WsMessage, fields: map<string, Json>)
    requires Recovered(fields, m)
    ensures forall i :: 0 <= i < 10 && Parts(m)[i] != [] ==>
               NAMES[i] in fields && fields[NAMES[i]] == Erase(Parts(m)[i][0].value)
  {
    hide StatusValue, ResponsesValue;
  }

  /** A text that is read as an object that holds these members. */
  lemma ObjectCost(members: seq<Member>, s: string)
    requires members != [] && ParseValue(s).Some? && ParseValue(s).value.value.JObj?
    requires Held(members, ParseValue(s).value.value.members)
    ensures 1 + LeastMembers(members) + |ParseValue(s).value.rest| <= |s|
  {
    hide SkipWhite, ParseChars, ParseNumber, ParseElements, ParseMembers, LeastMembers, Held;
    var t := SkipWhite(s);
    NumberKind(t);
    HeldNothing(members, ParseValue(s).value.value.members);
    if Expect(t[1..], '}').None? {
      MembersCost(members, t[1..]);
    }
  }

  /** A parser reads the message back from its text, field by field, and stops at its end. */
  ghost predicate ReadBack(m: WsMessage, rest: string) {
    var p := ParseValue(Text(m) + rest);
    p.Some? && p.value.rest == rest && p.value.value.JObj? && Recovered(p.value.value.members, m)
  }

  /**
   Exactly the plain messages are read back, whatever data they carry and whatever
   follows them: one quote, backslash or control character in any header, name of a
   client or error of a response, and the text means something else or nothing.
   */
  lemma MessageRecoveredExactly(m: WsMessage, rest: string)
    requires Maps(m)
    ensures ReadBack(m, rest) <==> PlainMessage(m)
  {
    hide Recovered, Text, PlainMessage, Members, ParseValue, Maps, LeastMembers, Held, Squeeze, Size;
    if PlainMessage(m) {
      MessageRecovered(m, rest);
    } else if ReadBack(m, rest) {
      var s := Text(m) + rest;
      HeldMembers(m, ParseValue(s).value.value.members);
      SomeMember(m);
      ValueSqueezed(s);
      ObjectCost(Members(m), Squeeze(s));
      TextSqueezed(m, rest);
      TightText(m);
    }
  }

  lemma SomeMember(m: WsMessage)
    ensures Members(m) != []
  {
  }
}
