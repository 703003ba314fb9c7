/**
 The printer of ksps/json.go. A byte of the buffer is a char of that code. A Go
 map is printed in whatever order its iteration takes, so an object carries its
 members in an order.
 */
module JsonText {
  import opened Decimals

  datatype Value =
    | Null
    | Bool(b: bool)
    | Int(n: int)
    | Str(s: string)
    | Arr(items: seq<Value>)
    | Strs(texts: seq<string>)
    | Obj(members: seq<Member>)

  datatype Member = Member(key: string, value: Value)

  /** hexChar */
  function HexChar(b: nat): char
    requires b < 16
  {
    if b < 10 then '0' + (b as char) else 'a' + ((b - 10) as char)
  }

  function EscapeChar(c: char): string {
    if c == '"' then ['\\', '"']
    else if c == '\\' then ['\\', '\\']
    else if c == '\n' then ['\\', 'n']
    else if c == '\r' then ['\\', 'r']
    else if c == '\t' then ['\\', 't']
    else if c < ' ' then ['\\', 'u', '0', '0', HexChar(c as int / 16), HexChar(c as int % 16)]
    else [c]
  }

  function Escape(s: string): string {
    if s == "" then "" else EscapeChar(s[0]) + Escape(s[1..])
  }

  function Quoted(s: string): string {
    "\"" + Escape(s) + "\""
  }

  /** The parts with a comma between any two. */
  function Commas(parts: seq<string>): string {
    if parts == [] then "" else if |parts| == 1 then parts[0] else Commas(parts[..|parts| - 1]) + "," + parts[|parts| - 1]
  }

  function Print(v: Value): string {
    match v
    case Null => "null"
    case Bool(b) => if b then "true" else "false"
    case Int(n) => Signed(n)
    case Str(s) => Quoted(s)
    case Arr(items) => "[" + Commas(PrintItems(items)) + "]"
    case Strs(texts) => "[" + Commas(PrintTexts(texts)) + "]"
    case Obj(members) => "{" + Commas(PrintMembers(members)) + "}"
  }

  function PrintItems(items: seq<Value>): (parts: seq<string>)
    ensures |parts| == |items|
  {
    seq(|items|, i requires 0 <= i < |items| => Print(items[i]))
  }

  function PrintTexts(texts: seq<string>): (parts: seq<string>)
    ensures |parts| == |texts|
  {
    seq(|texts|, i requires 0 <= i < |texts| => Quoted(texts[i]))
  }

  function PrintMember(m: Member): string {
    Quoted(m.key) + ":" + Print(m.value)
  }

  function PrintMembers(members: seq<Member>): (parts: seq<string>)
    ensures |parts| == |members|
  {
    seq(|members|, i requires 0 <= i < |members| => PrintMember(members[i]))
  }

  // ----- An example -----

  lemma CommasOfTwo(a: string, b: string)
    ensures Commas([a, b]) == a + "," + b
  {
    assert [a, b][..1] == [a];
  }

  lemma CommasOfThree(a: string, b: string, c: string)
    ensures Commas([a, b, c]) == a + "," + b + "," + c
  {
    CommasOfTwo(a, b);
    assert [a, b, c][..2] == [a, b];
  }

  lemma StringTexts()
    ensures Quoted("x") == "\"x\"" && Quoted("\n") == "\"\\n\"" && Quoted("\"") == "\"\\\"\"" && Signed(-12) == "-12"
  {
    assert "x"[1..] == "\n"[1..] == "\""[1..] == "";
    assert Decimal(1) == "1" && Decimal(12) == "1" + "2";
  }

  lemma ListText()
    ensures Print(Arr([Null, Bool(true), Str("\n")])) == "[null,true,\"\\n\"]"
  {
    var items := [Null, Bool(true), Str("\n")];
    hide Quoted, Commas;
    StringTexts();
    assert PrintItems(items) == ["null", "true", "\"\\n\""];
    CommasOfThree("null", "true", "\"\\n\"");
  }

  /** Numbers, words, strings with and without escapes, and both kinds of brackets: {"x":[null,true,"\n"],"\"":-12} */
  lemma Example()
    ensures Print(Obj([Member("x", Arr([Null, Bool(true), Str("\n")])), Member("\"", Int(-12))]))
         == "{" + ("\"x\"" + ":" + "[null,true,\"\\n\"]" + "," + ("\"\\\"\"" + ":" + "-12")) + "}"
  {
    var list := Arr([Null, Bool(true), Str("\n")]);
    var a, b := Member("x", list), Member("\"", Int(-12));
    assert Print(Int(-12)) == Signed(-12) && Print(Obj([a, b])) == "{" + Commas(PrintMembers([a, b])) + "}";
    hide Print, Quoted, Signed, Commas;
    ListText();
    StringTexts();
    assert PrintMembers([a, b]) == [PrintMember(a), PrintMember(b)];
    CommasOfTwo(PrintMember(a), PrintMember(b));
  }
}
