/** Bus messages are read back whole when their strings are plain, and cannot be told apart otherwise. */
module JsonMessageBack {
  import opened Options
  import opened JsonText
  import opened JsonParser
  import opened JsonRoundTrip
  import opened JsonMessages
  import opened JsonHeaders
  import opened Sequences

  /** A plain message is read back as its members, and the parser stops at its end, whatever follows. */
  lemma MessageBack(m: WsMessage, rest: string)
    requires PlainMessage(m)
    ensures ParseValue(Text(m) + rest) == Some(Parsed(JObj(EraseFrom(Members(m), 0)), rest))
  {
    hide Text, PlainMessage, Members, ParseValue, Print, NumberEnds;
    TextIsPrint(m);
    var ms := Members(m);
    forall i, rest' | 0 <= i < |ms| && NumberEnds(rest')
      ensures Back(ms[i].value, rest')
    {
      ValueBack(ms[i].value, rest');
    }
    ObjBack(ms, rest);
  }

  lemma {:induction false} EraseSkip(ms: seq<Member>, ms': seq<Member>, k: nat)
    requires k <= |ms'|
    ensures EraseFrom(ms + ms', |ms| + k) == EraseFrom(ms', k)
    decreases |ms'| - k
  {
    hide Erase;
    if k < |ms'| {
      EraseSkip(ms, ms', k + 1);
      assert (ms + ms')[|ms| + k] == ms'[k];
    }
  }

  lemma EraseStep(ms: seq<Member>, k: nat)
    requires k < |ms|
    ensures EraseFrom(ms, k) == map[ms[k].key := Erase(ms[k].value)] + EraseFrom(ms, k + 1)
  {
    hide Erase;
  }

  lemma MergeAssoc(a: Fields, b: Fields, c: Fields)
    ensures (a + b) + c == a + (b + c)
  {
  }

  lemma {:induction false} EraseAppend(ms: seq<Member>, ms': seq<Member>, k: nat)
    requires k <= |ms|
    ensures EraseFrom(ms + ms', k) == EraseFrom(ms, k) + EraseFrom(ms', 0)
    decreases |ms| - k
  {
    if k == |ms| {
      EraseSkip(ms, ms', 0);
      assert EraseFrom(ms, k) == map[];
    } else {
      EraseAppend(ms, ms', k + 1);
      hide Erase, EraseFrom;
      EraseStep(ms, k);
      EraseStep(ms + ms', k);
      MergeAssoc(map[ms[k].key := Erase(ms[k].value)], EraseFrom(ms, k + 1), EraseFrom(ms', 0));
    }
  }

  type Fields = map<string, Json>

  /** What one name means in an object. */
  function At(fields: Fields, name: string): Option<Json> {
    if name in fields then Some(fields[name]) else None
  }

  /** The value of a header; a missing one is empty. */
  function HeaderOf(fields: Fields, name: string): string {
    if name in fields && fields[name].JStr? then fields[name].s else ""
  }

  ghost function FieldsOf(ms: seq<Member>): Fields {
    EraseFrom(ms, 0)
  }

  /** Members of another name do not matter. */
  lemma OtherName(ms: seq<Member>, ms': seq<Member>, name: string)
    requires |ms'| <= 1 && (ms' != [] ==> ms'[0].key != name)
    ensures At(FieldsOf(ms + ms'), name) == At(FieldsOf(ms), name)
  {
    EraseAppend(ms, ms', 0);
    hide Erase;
    if ms' != [] {
      EraseOne(ms', 0);
    }
  }

  lemma ThisName(ms: seq<Member>, ms': seq<Member>, name: string)
    requires |ms'| <= 1 && (ms' != [] ==> ms'[0].key == name)
    ensures At(FieldsOf(ms + ms'), name) == if ms' == [] then At(FieldsOf(ms), name) else Some(Erase(ms'[0].value))
  {
    EraseAppend(ms, ms', 0);
    hide Erase;
    if ms' != [] {
      EraseOne(ms', 0);
    }
  }

  lemma NamesDiffer()
    ensures "action" != "topic" && "action" != "from" && "action" != "to" && "action" != "id" && "action" != "error"
    ensures "action" != "ack_id" && "action" != "data" && "action" != "status" && "action" != "responses"
    ensures "topic" != "error" && "topic" != "from" && "topic" != "to" && "topic" != "id" && "topic" != "ack_id"
    ensures "topic" != "data" && "topic" != "status" && "topic" != "responses"
    ensures "from" != "to" && "from" != "id" && "from" != "error" && "from" != "ack_id" && "from" != "data"
    ensures "from" != "status" && "from" != "responses"
    ensures "to" != "id" && "to" != "error" && "to" != "ack_id" && "to" != "data" && "to" != "status" && "to" != "responses"
    ensures "id" != "error" && "id" != "ack_id" && "id" != "data" && "id" != "status" && "id" != "responses"
    ensures "error" != "ack_id" && "error" != "data" && "error" != "status" && "error" != "responses"
    ensures "ack_id" != "data" && "ack_id" != "status" && "ack_id" != "responses"
    ensures "data" != "status" && "data" != "responses" && "status" != "responses"
  {
    assert "action"[1] != "ack_id"[2];
    assert "action"[0] == 'a' && "action"[2] == 't' && "ack_id"[2] == 'k' && "status"[0] == 's';
    assert "topic"[0] == 't' && "error"[0] == 'e' && "from"[0] == 'f' && "data"[0] == 'd';
    assert "to"[0] == 't' && "id"[0] == 'i' && "ack_id"[0] == 'a';
  }

  const NAMES: seq<string> := ["action", "topic", "from", "to", "id", "error", "ack_id", "data", "status", "responses"]

  lemma NamesDistinct(i: nat, j: nat)
    requires i < 10 && j < 10 && i != j
    ensures NAMES[i] != NAMES[j]
  {
    NamesDiffer();
  }

  /** The ten possible members; a part is empty when its member is left out. */
  function Parts(m: WsMessage): (parts: seq<seq<Member>>)
    ensures |parts| == 10
  {
    [[Member("action", Str(m.action))], Header("topic", m.topic), Header("from", m.from), Header("to", m.to),
     Header("id", m.id), Header("error", m.error), Header("ack_id", m.ackId),
     Section("data", m.data == Null, m.data), Section("status", m.status == [], StatusValue(m.status)),
     Section("responses", m.responses == [], ResponsesValue(m.responses))]
  }

  lemma PartsNamed(m: WsMessage, i: nat)
    requires i < 10
    ensures |Parts(m)[i]| <= 1 && (Parts(m)[i] != [] ==> Parts(m)[i][0].key == NAMES[i])
  {
    hide StatusValue, ResponsesValue;
  }

  function Flat(parts: seq<seq<Member>>): seq<Member> {
    if parts == [] then [] else Flat(parts[..|parts| - 1]) + parts[|parts| - 1]
  }

  lemma FlatNext(parts: seq<seq<Member>>, n: nat)
    requires n < |parts|
    ensures Flat(parts[..n + 1]) == Flat(parts[..n]) + parts[n]
  {
    assert parts[..n + 1][..n] == parts[..n];
  }

  lemma MembersAreParts(m: WsMessage)
    ensures Members(m) == Flat(Parts(m)[..10])
  {
    hide Header, Section, StatusValue, ResponsesValue, Flat;
    var parts := Parts(m);
    FlatOne(parts);
    FlatNext(parts, 1);
    FlatNext(parts, 2);
    FlatNext(parts, 3);
    FlatNext(parts, 4);
    FlatNext(parts, 5);
    FlatNext(parts, 6);
    FlatNext(parts, 7);
    FlatNext(parts, 8);
    FlatNext(parts, 9);
  }

  lemma FlatOne(parts: seq<seq<Member>>)
    requires |parts| > 0
    ensures Flat(parts[..1]) == parts[0]
  {
    FlatNext(parts, 0);
    assert parts[..0] == [];
    assert [] + parts[0] == parts[0];
  }

  /** The part of a name, among the first n parts of a message, decides what the name means. */
  lemma {:induction false} PartDecides(m: WsMessage, n: nat, i: nat)
    requires n <= 10 && i < 10
    ensures At(FieldsOf(Flat(Parts(m)[..n])), NAMES[i])
         == if i < n && Parts(m)[i] != [] then Some(Erase(Parts(m)[i][0].value)) else None
    decreases n
  {
    hide Parts, FieldsOf, Erase, At;
    if n == 0 {
      NothingIn(NAMES[i]);
    } else {
      PartDecides(m, n - 1, i);
      FlatNext(Parts(m), n - 1);
      PartsNamed(m, n - 1);
      if n - 1 == i {
        ThisName(Flat(Parts(m)[..n - 1]), Parts(m)[n - 1], NAMES[i]);
      } else {
        NamesDistinct(i, n - 1);
        OtherName(Flat(Parts(m)[..n - 1]), Parts(m)[n - 1], NAMES[i]);
      }
    }
  }

  lemma NothingIn(name: string)
    ensures At(FieldsOf(Flat([])), name) == None
  {
  }

  /** The value a JSON object gives a name, or what an absent one stands for. */
  ghost predicate Recovered(fields: Fields, m: WsMessage) {
    && At(fields, "action") == Some(JStr(m.action))
    && HeaderOf(fields, "topic") == m.topic && HeaderOf(fields, "from") == m.from && HeaderOf(fields, "to") == m.to
    && HeaderOf(fields, "id") == m.id && HeaderOf(fields, "error") == m.error && HeaderOf(fields, "ack_id") == m.ackId
    && At(fields, "data") == (if m.data == Null then None else Some(Erase(m.data)))
    && At(fields, "status") == (if m.status == [] then None else Some(Erase(StatusValue(m.status))))
    && At(fields, "responses") == (if m.responses == [] then None else Some(Erase(ResponsesValue(m.responses))))
  }

  lemma FieldsRecovered(m: WsMessage)
    ensures Recovered(FieldsOf(Members(m)), m)
  {
    hide FieldsOf, Members, Flat, StatusValue, ResponsesValue, Parts;
    MembersAreParts(m);
    forall i | 0 <= i < 10
      ensures At(FieldsOf(Members(m)), NAMES[i])
           == if Parts(m)[i] != [] then Some(Erase(Parts(m)[i][0].value)) else None
    {
      PartDecides(m, 10, i);
    }
    RecoveredByParts(FieldsOf(Members(m)), m);
  }

  lemma RecoveredByParts(fields: Fields, m: WsMessage)
    requires forall i :: 0 <= i < 10 ==>
               At(fields, NAMES[i]) == if Parts(m)[i] != [] then Some(Erase(Parts(m)[i][0].value)) else None
    ensures Recovered(fields, m)
  {
    hide StatusValue, ResponsesValue, At, HeaderOf, Header, Erase;
    assert At(fields, NAMES[0]) == Some(Erase(Str(m.action)));
    assert At(fields, NAMES[7]) == if m.data == Null then None else Some(Erase(m.data));
    assert At(fields, NAMES[8]) == if m.status == [] then None else Some(Erase(StatusValue(m.status)));
    assert At(fields, NAMES[9]) == if m.responses == [] then None else Some(Erase(ResponsesValue(m.responses)));
    ErasedString(m.action);
    HeaderRecovered(fields, NAMES[1], m.topic, Parts(m)[1]);
    HeaderRecovered(fields, NAMES[2], m.from, Parts(m)[2]);
    HeaderRecovered(fields, NAMES[3], m.to, Parts(m)[3]);
    HeaderRecovered(fields, NAMES[4], m.id, Parts(m)[4]);
    HeaderRecovered(fields, NAMES[5], m.error, Parts(m)[5]);
    HeaderRecovered(fields, NAMES[6], m.ackId, Parts(m)[6]);
  }

  lemma ErasedString(s: string)
    ensures Erase(Str(s)) == JStr(s)
  {
  }

  lemma HeaderRecovered(fields: Fields, name: string, value: string, part: seq<Member>)
    requires part == Header(name, value)
    requires At(fields, name) == if part != [] then Some(Erase(part[0].value)) else None
    ensures HeaderOf(fields, name) == value
  {
  }

  /** What a plain message says in each of its fields is what a parser finds there, and it stops at the end of the message. */
  lemma MessageRecovered(m: WsMessage, rest: string)
    requires PlainMessage(m)
    ensures var p := ParseValue(Text(m) + rest);
            p.Some? && p.value.rest == rest && p.value.value.JObj? && Recovered(p.value.value.members, m)
  {
    hide Recovered, Text, PlainMessage, Members, ParseValue;
    MessageBack(m, rest);
    FieldsRecovered(m);
  }

  // ----- The two maps of a message -----

  /** In an object a name that comes once, behind k, has the value of that member. */
  lemma {:induction false} OnlyOne(ms: seq<Member>, k: nat, i: nat)
    requires k <= i < |ms| && forall j :: i < j < |ms| ==> ms[j].key != ms[i].key
    ensures At(EraseFrom(ms, k), ms[i].key) == Some(Erase(ms[i].value))
    decreases |ms| - k
  {
    hide Erase;
    EraseOne(ms, k);
    if k < i {
      OnlyOne(ms, k + 1, i);
    } else {
      NotNamed(ms, k + 1, ms[i].key);
    }
  }

  /** A name that does not come has no value. */
  lemma {:induction false} NotNamed(ms: seq<Member>, k: nat, name: string)
    requires k <= |ms| && forall j :: k <= j < |ms| ==> ms[j].key != name
    ensures At(EraseFrom(ms, k), name) == None
    decreases |ms| - k
  {
    hide Erase;
    if k < |ms| {
      EraseOne(ms, k);
      NotNamed(ms, k + 1, name);
    }
  }

  /** What a name means in the status object: whether the client of that name has received the message. */
  lemma StatusRecovered(status: seq<Status>, i: nat, other: string)
    requires i < |status| && forall j :: 0 <= j < |status| ==> status[j].client != other
    requires forall j :: i < j < |status| ==> status[j].client != status[i].client
    ensures var json := Erase(StatusValue(status));
            && json.JObj?
            && At(json.members, status[i].client) == Some(JBool(status[i].received))
            && At(json.members, other) == None
  {
    hide EraseFrom, At;
    var ms := StatusValue(status).members;
    assert ms[i] == Member(status[i].client, Bool(status[i].received));
    OnlyOne(ms, 0, i);
    NotNamed(ms, 0, other);
  }

  /** And in the responses object: the answer of the client, field by field. */
  lemma ResponsesRecovered(responses: seq<Response>, i: nat, other: string)
    requires i < |responses| && forall j :: 0 <= j < |responses| ==> responses[j].client != other
    requires forall j :: i < j < |responses| ==> responses[j].client != responses[i].client
    ensures var json := Erase(ResponsesValue(responses));
            && json.JObj?
            && At(json.members, responses[i].client).Some? && At(json.members, other) == None
            && var r := At(json.members, responses[i].client).value;
               && r.JObj?
               && At(r.members, "ack_id") == Some(JStr(responses[i].ackId))
               && At(r.members, "client_id") == Some(JStr(responses[i].clientId))
               && At(r.members, "success") == Some(JBool(responses[i].success))
               && HeaderOf(r.members, "error") == responses[i].error
  {
    hide EraseFrom, At, HeaderOf, ResponseValue;
    var ms := ResponsesValue(responses).members;
    assert ms[i] == Member(responses[i].client, ResponseValue(responses[i]));
    OnlyOne(ms, 0, i);
    NotNamed(ms, 0, other);
    ResponseRecovered(responses[i]);
  }

  lemma ResponseRecovered(r: Response)
    ensures var json := Erase(ResponseValue(r));
            && json.JObj?
            && At(json.members, "ack_id") == Some(JStr(r.ackId)) && At(json.members, "client_id") == Some(JStr(r.clientId))
            && At(json.members, "success") == Some(JBool(r.success)) && HeaderOf(json.members, "error") == r.error
  {
    hide EraseFrom;
    var ms := ResponseValue(r).members;
    assert ms[0] == Member("ack_id", Str(r.ackId)) && ms[1] == Member("client_id", Str(r.clientId));
    assert ms[2] == Member("success", Bool(r.success));
    assert r.error != "" ==> ms[3] == Member("error", Str(r.error));
    assert "ack_id"[0] == 'a' && "client_id"[0] == 'c' && "success"[0] == 's' && "error"[0] == 'e';
    OnlyOne(ms, 0, 0);
    OnlyOne(ms, 0, 1);
    OnlyOne(ms, 0, 2);
    if r.error != "" {
      OnlyOne(ms, 0, 3);
    } else {
      NotNamed(ms, 0, "error");
    }
  }

  const BLANK: WsMessage := WsMessage("", "", "", "", "", "", "", Null, [], [])

  lemma BlankText(action: string, topic: string)
    ensures Text(BLANK.(action := action, topic := topic)) == "{" + (RawMember("action", Raw(action)) + Field("topic", topic)) + "}"
  {
    hide RawMember, Raw;
    var m := BLANK.(action := action, topic := topic);
    var h := RawMember("action", Raw(action)) + Field("topic", topic);
    assert Headers(m) == h + "" + "" + "" + "" + "" == h;
    hide Headers;
    assert "{" + h + "" + "" + "" == "{" + h;
  }

  lemma Rebracket(a: string, q: string, v: string, t: string, w: string)
    ensures a + (q + (v + (q + t + q) + w) + q) == a + (q + v + q) + (t + (q + w + q))
  {
  }

  lemma InjectedHeader(action: string, topic: string)
    requires topic != ""
    ensures RawMember("action", Raw(action + "\",\"topic\":\"" + topic)) == RawMember("action", Raw(action)) + Field("topic", topic)
  {
    var t := ",\"topic\":";
    assert "\"" + t + "\"" == "\",\"topic\":\"";
    FieldIs(topic, t);
    RawIs(action);
    RawIs(action + "\",\"topic\":\"" + topic);
    Rebracket("\"action\":", "\"", action, t, topic);
  }

  lemma FieldIs(topic: string, t: string)
    requires topic != "" && t == ",\"topic\":"
    ensures Field("topic", topic) == t + ("\"" + topic + "\"")
  {
    assert Raw("topic") + ":" == "\"topic\":";
    Assoc(",", Raw("topic") + ":", Raw(topic));
  }

  lemma RawIs(action: string)
    ensures RawMember("action", Raw(action)) == "\"action\":" + ("\"" + action + "\"")
  {
    assert Raw("action") + ":" == "\"action\":";
  }

  /** An action that carries a quote can pass for another message altogether. */
  lemma Injected(action: string, topic: string)
    requires topic != ""
    ensures Text(BLANK.(action := action + "\",\"topic\":\"" + topic)) == Text(BLANK.(action := action, topic := topic))
  {
    hide Text, RawMember, Raw;
    var injected := action + "\",\"topic\":\"" + topic;
    BlankText(action, topic);
    BlankText(injected, "");
    InjectedHeader(action, topic);
    assert BLANK.(action := injected) == BLANK.(action := injected, topic := "");
    assert RawMember("action", Raw(injected)) + "" == RawMember("action", Raw(injected));
  }
}
