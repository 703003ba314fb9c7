/** MarshalKSMUXTo and MarshalKSMUX of ksps/json.go: bus messages as JSON, their header strings written unescaped. */
module JsonMessages {
  import opened JsonText
  import opened JsonPrinter
  import opened Sequences

  datatype Status = Status(client: string, received: bool)

  datatype Response = Response(client: string, ackId: string, clientId: string, success: bool, error: string)

  /** data Null stands for no data; status and responses are the maps in the order of their iteration. */
  datatype WsMessage = WsMessage(action: string, topic: string, from: string, to: string, id: string, error: string,
                                 ackId: string, data: Value, status: seq<Status>, responses: seq<Response>)

  function Raw(s: string): string {
    "\"" + s + "\""
  }

  function RawMember(name: string, text: string): string {
    Raw(name) + ":" + text
  }

  function Truth(b: bool): string {
    if b then "true" else "false"
  }

  /** A header that is left out when it is empty. */
  function Field(name: string, value: string): string {
    if value == "" then "" else "," + RawMember(name, Raw(value))
  }

  function Headers(m: WsMessage): string {
    RawMember("action", Raw(m.action)) + Field("topic", m.topic) + Field("from", m.from) + Field("to", m.to)
    + Field("id", m.id) + Field("error", m.error) + Field("ack_id", m.ackId)
  }

  function DataText(data: Value): string {
    if data == Null then "" else "," + RawMember("data", Print(data))
  }

  function StatusParts(status: seq<Status>): (parts: seq<string>)
    ensures |parts| == |status|
  {
    seq(|status|, i requires 0 <= i < |status| => RawMember(status[i].client, Truth(status[i].received)))
  }

  function StatusText(status: seq<Status>): string {
    if status == [] then "" else "," + RawMember("status", "{" + Commas(StatusParts(status)) + "}")
  }

  function ResponseText(r: Response): string {
    "{" + RawMember("ack_id", Raw(r.ackId)) + "," + RawMember("client_id", Raw(r.clientId)) + ","
    + RawMember("success", Truth(r.success)) + Field("error", r.error) + "}"
  }

  function ResponseParts(responses: seq<Response>): (parts: seq<string>)
    ensures |parts| == |responses|
  {
    seq(|responses|, i requires 0 <= i < |responses| => RawMember(responses[i].client, ResponseText(responses[i])))
  }

  function ResponsesText(responses: seq<Response>): string {
    if responses == [] then "" else "," + RawMember("responses", "{" + Commas(ResponseParts(responses)) + "}")
  }

  function Text(m: WsMessage): string {
    "{" + Headers(m) + DataText(m.data) + StatusText(m.status) + ResponsesText(m.responses) + "}"
  }

  // ----- Appending -----

  lemma RawMemberText(buf: string, name: string, text: string)
    ensures buf + "\"" + name + "\":" + text == buf + RawMember(name, text)
  {
    assert buf + "\"" + name + "\":" + text == buf + ("\"" + name + "\"" + ":" + text);
  }

  lemma FieldText(buf: string, name: string, value: string)
    ensures buf + ",\"" + name + "\":\"" + value + "\"" == buf + ("," + RawMember(name, Raw(value)))
  {
    assert buf + ",\"" + name + "\":\"" + value + "\""
        == buf + ("," + ("\"" + name + "\"" + ":" + ("\"" + value + "\"")));
  }

  method AppendField(buf: string, name: string, value: string) returns (out: string)
    ensures out == buf + Field(name, value)
  {
    if value != "" {
      out := buf + ",\"" + name + "\":\"" + value + "\"";
      FieldText(buf, name, value);
    } else {
      out := buf;
    }
  }

  /** The action comes first and is always there; the other headers follow if they are not empty. */
  method AppendHeaders(buf: string, m: WsMessage) returns (out: string)
    ensures out == buf + Headers(m)
  {
    hide Field;
    out := buf + "\"action\":\"" + m.action + "\"";
    ghost var text := RawMember("action", Raw(m.action));
    assert out == buf + text;
    hide RawMember, Raw;
    out := AppendField(out, "topic", m.topic);
    Assoc(buf, text, Field("topic", m.topic));
    text := text + Field("topic", m.topic);
    out := AppendField(out, "from", m.from);
    Assoc(buf, text, Field("from", m.from));
    text := text + Field("from", m.from);
    out := AppendField(out, "to", m.to);
    Assoc(buf, text, Field("to", m.to));
    text := text + Field("to", m.to);
    out := AppendField(out, "id", m.id);
    Assoc(buf, text, Field("id", m.id));
    text := text + Field("id", m.id);
    out := AppendField(out, "error", m.error);
    Assoc(buf, text, Field("error", m.error));
    text := text + Field("error", m.error);
    out := AppendField(out, "ack_id", m.ackId);
    Assoc(buf, text, Field("ack_id", m.ackId));
    text := text + Field("ack_id", m.ackId);
  }

  /** The status map, in the order in which it is iterated. */
  method AppendStatus(buf: string, status: seq<Status>) returns (out: string)
    ensures out == buf + StatusText(status)
  {
    hide RawMember, Commas;
    if |status| == 0 {
      return buf;
    }
    out := buf + ",\"status\":{";
    ghost var pre := out;
    ghost var parts: seq<string> := [];
    var first := true;
    NoParts(pre);
    for i := 0 to |status|
      invariant first <==> i == 0
      invariant parts == StatusParts(status)[..i]
      invariant out == pre + Commas(parts)
    {
      var part := RawMember(status[i].client, Truth(status[i].received));
      CommasAppend(pre, parts, part);
      if !first {
        out := out + ",";
      }
      RawMemberText(out, status[i].client, Truth(status[i].received));
      out := out + "\"" + status[i].client + "\":" + (if status[i].received then "true" else "false");
      parts := parts + [part];
      first := false;
    }
    assert parts == StatusParts(status);
    MapText(buf, "status", Commas(parts));
    out := out + "}";
  }

  lemma MapText(buf: string, name: string, inner: string)
    ensures buf + (",\"" + name + "\":{") + inner + "}" == buf + ("," + RawMember(name, "{" + inner + "}"))
  {
    assert buf + (",\"" + name + "\":{") + inner + "}"
        == buf + ("," + ("\"" + name + "\"" + ":" + ("{" + inner + "}")));
  }

  /** A name and a string, both unescaped. */
  method AppendRaw(buf: string, name: string, value: string) returns (out: string)
    ensures out == buf + RawMember(name, Raw(value))
  {
    out := buf + "\"" + name + "\":\"" + value + "\"";
    assert out == buf + ("\"" + name + "\"" + ":" + ("\"" + value + "\""));
  }

  method AppendResponse(buf: string, r: Response) returns (out: string)
    ensures out == buf + ResponseText(r)
  {
    hide Field, RawMember, Raw, Truth;
    out := buf + "{";
    ghost var text := "{";
    Assoc(buf, text, RawMember("ack_id", Raw(r.ackId)));
    out := AppendRaw(out, "ack_id", r.ackId);
    text := text + RawMember("ack_id", Raw(r.ackId));
    Assoc(buf, text, ",");
    Assoc(buf, text + ",", RawMember("client_id", Raw(r.clientId)));
    out := AppendRaw(out + ",", "client_id", r.clientId);
    text := text + "," + RawMember("client_id", Raw(r.clientId));
    Assoc(buf, text, ",");
    RawMemberText(out + ",", "success", Truth(r.success));
    Assoc(buf, text + ",", RawMember("success", Truth(r.success)));
    out := out + "," + "\"" + "success" + "\":" + Truth(r.success);
    text := text + "," + RawMember("success", Truth(r.success));
    out := AppendField(out, "error", r.error);
    Assoc(buf, text, Field("error", r.error));
    Assoc(buf, text + Field("error", r.error), "}");
    out := out + "}";
  }

  /** One entry of the responses map. */
  method AppendEntry(buf: string, r: Response) returns (out: string)
    ensures out == buf + RawMember(r.client, ResponseText(r))
  {
    hide RawMember, ResponseText;
    RawMemberText(buf, r.client, ResponseText(r));
    out := AppendResponse(buf + "\"" + r.client + "\":", r);
  }

  method AppendResponses(buf: string, responses: seq<Response>) returns (out: string)
    ensures out == buf + ResponsesText(responses)
  {
    hide RawMember, Commas, ResponseText;
    if |responses| == 0 {
      return buf;
    }
    out := buf + ",\"responses\":{";
    ghost var pre := out;
    ghost var parts: seq<string> := [];
    var first := true;
    NoParts(pre);
    for i := 0 to |responses|
      invariant first <==> i == 0
      invariant parts == ResponseParts(responses)[..i]
      invariant out == pre + Commas(parts)
    {
      CommasAppend(pre, parts, RawMember(responses[i].client, ResponseText(responses[i])));
      if !first {
        out := out + ",";
      }
      out := AppendEntry(out, responses[i]);
      parts := parts + [RawMember(responses[i].client, ResponseText(responses[i]))];
      first := false;
    }
    assert parts == ResponseParts(responses);
    MapText(buf, "responses", Commas(parts));
    out := out + "}";
  }

  /** MarshalKSMUXTo */
  method MarshalTo(buf: string, m: WsMessage) returns (out: string)
    ensures out == buf + Text(m)
  {
    hide Headers, StatusText, ResponsesText, Print, RawMember;
    out := buf + "{";
    out := AppendHeaders(out, m);
    ghost var text := "{" + Headers(m);
    Assoc(buf, "{", Headers(m));
    if m.data != Null {
      ghost var before := out;
      out := out + ",\"data\":";
      DataStart(before, m.data);
      out := AppendValue(out, m.data);
    }
    Assoc(buf, text, DataText(m.data));
    assert text + "" == text;
    text := text + DataText(m.data);
    out := AppendStatus(out, m.status);
    Assoc(buf, text, StatusText(m.status));
    text := text + StatusText(m.status);
    out := AppendResponses(out, m.responses);
    Assoc(buf, text, ResponsesText(m.responses));
    text := text + ResponsesText(m.responses);
    Assoc(buf, text, "}");
    out := out + "}";
  }

  lemma DataStart(buf: string, data: Value)
    ensures buf + ",\"data\":" + Print(data) == buf + ("," + RawMember("data", Print(data)))
  {
    hide Print;
    assert buf + ",\"data\":" + Print(data) == buf + ("," + ("\"data\"" + ":" + Print(data)));
  }

  /** MarshalKSMUX: the same bytes, in a buffer of their own. */
  method Marshal(m: WsMessage) returns (res: string)
    ensures res == Text(m)
  {
    hide Text;
    res := MarshalTo("", m);
    assert "" + Text(m) == Text(m);
  }
}
