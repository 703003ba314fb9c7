/** What ksps/json.go prints is read back by the parser, which stops where the print ends. */
module JsonRoundTrip {
  import opened Decimals
  import opened Options
  import opened Utf8
  import opened JsonText
  import opened JsonParser
  import opened Sequences

  // ----- Strings -----

  lemma HexBack(b: nat)
    requires b < 16
    ensures HexDigit(HexChar(b)) == Some(b)
  {
  }

  /** One escaped character is read as itself. */
  lemma OneChar(c: char, tail: string)
    ensures ParseChars(EscapeChar(c) + tail) == Prepend([c], ParseChars(tail))
  {
    var s := EscapeChar(c) + tail;
    if c < ' ' && c != '\n' && c != '\r' && c != '\t' {
      ControlChar(c, tail);
    } else if |EscapeChar(c)| == 2 {
      assert s[1..] == [EscapeChar(c)[1]] + tail;
      assert s[1..][1..] == tail;
    } else {
      assert s[1..] == tail;
    }
  }

  lemma ControlChar(c: char, tail: string)
    requires c < ' ' && c != '\n' && c != '\r' && c != '\t'
    ensures ParseChars(EscapeChar(c) + tail) == Prepend([c], ParseChars(tail))
  {
    var high, low := HexChar(c as int / 16), HexChar(c as int % 16);
    var s := EscapeChar(c) + tail;
    assert s[1..] == ['u', '0', '0', high, low] + tail;
    assert s[1..][1..] == ['0', '0', high, low] + tail;
    assert s[1..][5..] == tail;
    HexBack(c as int / 16);
    HexBack(c as int % 16);
    assert Hex4(s[1..][1..]) == Some(c as int);
    assert Encoded(c as int) == [c];
    hide Hex4, HexChar, Encoded;
  }

  lemma EscapeFirst(s: string, rest: string)
    requires s != ""
    ensures Escape(s) + "\"" + rest == EscapeChar(s[0]) + (Escape(s[1..]) + "\"" + rest)
  {
    hide EscapeChar;
    Assoc(EscapeChar(s[0]), Escape(s[1..]), "\"");
    Assoc(EscapeChar(s[0]), Escape(s[1..]) + "\"", rest);
  }

  /** The escaper loses nothing, and a parser stops exactly at the closing quote. */
  lemma {:induction false} StringBack(s: string, rest: string)
    ensures ParseChars(Escape(s) + "\"" + rest) == Some(Parsed(s, rest))
  {
    if s == "" {
      assert Escape(s) + "\"" + rest == "\"" + rest;
    } else {
      StringBack(s[1..], rest);
      hide Escape, EscapeChar, ParseChars;
      EscapeFirst(s, rest);
      OneChar(s[0], Escape(s[1..]) + "\"" + rest);
      assert [s[0]] + s[1..] == s;
    }
  }

  /** No control character is left in an escaped string. */
  lemma {:induction false} EscapeClean(s: string, i: nat)
    requires i < |Escape(s)|
    ensures Escape(s)[i] >= ' '
  {
    if i >= |EscapeChar(s[0])| {
      EscapeClean(s[1..], i - |EscapeChar(s[0])|);
    }
  }

  // ----- Numbers -----

  /** No character that would go on with a number. */
  predicate NumberEnds(rest: string) {
    rest == "" || !(IsDigit(rest[0]) || rest[0] == '.' || rest[0] == 'e' || rest[0] == 'E')
  }

  lemma {:induction false} DigitsOf(d: string, rest: string)
    requires forall i :: 0 <= i < |d| ==> IsDigit(d[i])
    requires rest == "" || !IsDigit(rest[0])
    ensures Digits(d + rest) == |d|
  {
    if d == "" {
      assert d + rest == rest;
    } else {
      assert (d + rest)[1..] == d[1..] + rest;
      DigitsOf(d[1..], rest);
    }
  }

  lemma NaturalBack(n: nat, rest: string)
    requires NumberEnds(rest)
    ensures IntLength(Decimal(n) + rest) == |Decimal(n)|
    ensures (Decimal(n) + rest)[..|Decimal(n)|] == Decimal(n) && (Decimal(n) + rest)[|Decimal(n)|..] == rest
  {
    hide Decimal;
    DigitsOf(Decimal(n), rest);
  }

  lemma NoFraction(rest: string)
    requires NumberEnds(rest)
    ensures Fraction(rest) == 0 && Exponent(rest) == 0 && rest[0..] == rest
  {
  }

  lemma NumberFrom(s: string, n: nat, rest: string)
    requires NumberEnds(rest)
    requires s == (if s != "" && s[0] == '-' then "-" else "") + (Decimal(n) + rest)
    ensures var k: int := n; ParseNumber(s) == Some(Parsed(JInt(if s[0] == '-' then -k else k), rest))
  {
    hide Decimal, Number, IntLength, Digits, Fraction, Exponent, IsDigit;
    NaturalBack(n, rest);
    NumberDecimal(n);
    NoFraction(rest);
    var t := Decimal(n) + rest;
    if s[0] == '-' {
      assert s[1..] == t;
    } else {
      assert s[0..] == s == t;
    }
  }

  lemma NumberBack(n: int, rest: string)
    requires NumberEnds(rest)
    ensures ParseNumber(Signed(n) + rest) == Some(Parsed(JInt(n), rest))
  {
    hide Decimal, ParseNumber;
    var m: nat := if n < 0 then -n else n;
    assert IsDigit(Decimal(m)[0]);
    if n < 0 {
      Assoc("-", Decimal(m), rest);
    } else {
      assert "" + (Decimal(m) + rest) == Decimal(m) + rest;
    }
    NumberFrom(Signed(n) + rest, m, rest);
  }

  // ----- Values -----

  /** What a value means: the order of a map's members is gone. */
  function Erase(v: Value): Json {
    match v
    case Null => JNull
    case Bool(b) => JBool(b)
    case Int(n) => JInt(n)
    case Str(s) => JStr(s)
    case Arr(items) => JArr(seq(|items|, i requires 0 <= i < |items| => Erase(items[i])))
    case Strs(texts) => JArr(seq(|texts|, i requires 0 <= i < |texts| => JStr(texts[i])))
    case Obj(members) => JObj(EraseFrom(members, 0))
  }

  /** The members from k on. */
  function EraseFrom(members: seq<Member>, k: nat): map<string, Json>
    requires k <= |members|
    decreases members, |members| - k
  {
    if k == |members| then map[]
    else map[members[k].key := Erase(members[k].value)] + EraseFrom(members, k + 1)
  }

  lemma {:induction false} CommasFront(part: string, parts: seq<string>)
    requires parts != []
    ensures Commas([part] + parts) == part + "," + Commas(parts)
  {
    var all := [part] + parts;
    assert all[..|all| - 1] == [part] + parts[..|parts| - 1];
    if |parts| == 1 {
      assert parts == [parts[0]] && all[..1] == [part];
    } else {
      CommasFront(part, parts[..|parts| - 1]);
      Assoc(part + ",", Commas(parts[..|parts| - 1]), ",");
      Assoc(part + ",", Commas(parts[..|parts| - 1]) + ",", parts[|parts| - 1]);
    }
  }

  /** A printed value starts with a character that is neither white nor one that separates or closes. */
  lemma PrintStart(v: Value)
    ensures Print(v) != "" && !IsWhite(Print(v)[0]) && Print(v)[0] != ']'
  {
    hide Commas, PrintItems, PrintMembers, PrintTexts, Escape;
  }

  lemma ExpectIt(s: string, c: char)
    requires s != "" && !IsWhite(s[0])
    ensures Expect(s, c) == if s[0] == c then Some(s[1..]) else None
  {
  }

  lemma Ends(c: char, rest: string)
    requires c == ',' || c == ']' || c == '}'
    ensures NumberEnds([c] + rest)
  {
  }

  ghost predicate Back(v: Value, rest: string) {
    ParseValue(Print(v) + rest) == Some(Parsed(Erase(v), rest))
  }

  lemma SimpleBack(v: Value, rest: string)
    requires v.Null? || v.Bool?
    ensures Back(v, rest)
  {
    var p := Print(v);
    assert (p + rest)[|p|..] == rest;
    assert p <= p + rest;
    assert SkipWhite(p + rest) == p + rest;
  }

  lemma IntBack(n: int, rest: string)
    requires NumberEnds(rest)
    ensures Back(Int(n), rest)
  {
    hide Decimal, ParseNumber, NumberEnds;
    NumberBack(n, rest);
    var s := Signed(n) + rest;
    assert SkipWhite(s) == s;
  }

  lemma QuotedTail(s: string, rest: string)
    ensures Quoted(s) + rest == "\"" + (Escape(s) + "\"" + rest)
    ensures (Quoted(s) + rest)[0] == '"' && (Quoted(s) + rest)[1..] == Escape(s) + "\"" + rest
  {
    hide Escape;
    assert Quoted(s) + rest == "\"" + (Escape(s) + "\"" + rest);
  }

  lemma StrBack(s: string, rest: string)
    ensures Back(Str(s), rest)
  {
    hide Escape, ParseChars, Quoted;
    QuotedTail(s, rest);
    StringBack(s, rest);
    assert SkipWhite(Quoted(s) + rest) == Quoted(s) + rest;
  }

  /** The items from k on, as an array's elements are read. */
  function EraseItems(items: seq<Value>, k: nat): seq<Json>
    requires k <= |items|
    decreases |items| - k
  {
    if k == |items| then [] else [Erase(items[k])] + EraseItems(items, k + 1)
  }

  lemma {:induction false} EraseItemsSize(items: seq<Value>, k: nat)
    requires k <= |items|
    ensures |EraseItems(items, k)| == |items| - k
    decreases |items| - k
  {
    hide Erase;
    if k < |items| {
      EraseItemsSize(items, k + 1);
    }
  }

  lemma {:induction false} EraseItemsAt(items: seq<Value>, k: nat, i: nat)
    requires k + i < |items|
    ensures |EraseItems(items, k)| == |items| - k && EraseItems(items, k)[i] == Erase(items[k + i])
    decreases |items| - k
  {
    hide Erase;
    EraseItemsSize(items, k);
    if i > 0 {
      EraseItemsAt(items, k + 1, i - 1);
    }
  }

  lemma ArrErased(items: seq<Value>)
    ensures Erase(Arr(items)) == JArr(EraseItems(items, 0))
  {
    hide EraseItems;
    var js := Erase(Arr(items)).items;
    EraseItemsSize(items, 0);
    forall i | 0 <= i < |items|
      ensures EraseItems(items, 0)[i] == js[i]
    {
      EraseItemsAt(items, 0, i);
    }
    assert js == EraseItems(items, 0);
  }

  lemma CommasTail(parts: seq<string>, k: nat)
    requires k < |parts|
    ensures Commas(parts[k..]) == if k + 1 == |parts| then parts[k] else parts[k] + "," + Commas(parts[k + 1..])
  {
    if k + 1 == |parts| {
      assert parts[k..] == [parts[k]];
    } else {
      CommasFront(parts[k], parts[k + 1..]);
      assert parts[k..] == [parts[k]] + parts[k + 1..];
    }
  }

  lemma LastElement(s: string, j: Json, rest: string)
    requires ParseValue(s) == Some(Parsed(j, "]" + rest))
    ensures ParseElements(s) == Some(Parsed([j], rest))
  {
    hide ParseValue;
    ExpectIt("]" + rest, ']');
    assert ("]" + rest)[1..] == rest;
  }

  lemma MoreElements(s: string, j: Json, t: string, js: seq<Json>, rest: string)
    requires ParseValue(s) == Some(Parsed(j, "," + t)) && ParseElements(t) == Some(Parsed(js, rest))
    ensures ParseElements(s) == Some(Parsed([j] + js, rest))
  {
    hide ParseValue;
    ExpectIt("," + t, ']');
    ExpectIt("," + t, ',');
    assert ("," + t)[1..] == t;
  }

  lemma EraseItem(items: seq<Value>, k: nat)
    requires k < |items|
    ensures EraseItems(items, k) == if k + 1 == |items| then [Erase(items[k])] else [Erase(items[k])] + EraseItems(items, k + 1)
  {
    hide Erase;
  }

  lemma ItemOf(items: seq<Value>, k: nat)
    requires k < |items|
    ensures Commas(PrintItems(items)[k..])
         == if k + 1 == |items| then Print(items[k]) else Print(items[k]) + "," + Commas(PrintItems(items)[k + 1..])
  {
    hide Commas, Print;
    CommasTail(PrintItems(items), k);
  }

  lemma {:induction false} ElementsBack(items: seq<Value>, k: nat, rest: string)
    requires k < |items|
    requires forall i, rest' {:trigger Back(items[i], rest')} :: 0 <= i < |items| && NumberEnds(rest') ==> Back(items[i], rest')
    ensures ParseElements(Commas(PrintItems(items)[k..]) + "]" + rest) == Some(Parsed(EraseItems(items, k), rest))
    decreases |items| - k
  {
    hide Commas, Print, PrintItems, Erase, EraseItems, NumberEnds, ParseElements, ParseValue;
    if k + 1 < |items| {
      ElementsBack(items, k + 1, rest);
    }
    var part := Print(items[k]);
    ItemOf(items, k);
    EraseItem(items, k);
    if k + 1 == |items| {
      Ends(']', rest);
      assert Back(items[k], "]" + rest);
      LastElement(part + ("]" + rest), Erase(items[k]), rest);
      Assoc(part, "]", rest);
    } else {
      var inner := Commas(PrintItems(items)[k + 1..]);
      var t := inner + "]" + rest;
      Ends(',', t);
      assert Back(items[k], "," + t);
      MoreElements(part + ("," + t), Erase(items[k]), t, EraseItems(items, k + 1), rest);
      Regroup(part, inner, "]", rest);
    }
  }

  lemma Regroup(part: string, inner: string, close: string, rest: string)
    ensures part + "," + inner + close + rest == part + ("," + (inner + close + rest))
  {
  }

  // ----- Objects -----

  /** How a member reads: its name, the colon, its value. */
  lemma MemberReads(m: Member, after: string) returns (chars: string)
    ensures Expect(PrintMember(m) + after, '"') == Some(chars)
    ensures ParseChars(chars) == Some(Parsed(m.key, ":" + (Print(m.value) + after)))
    ensures Expect(":" + (Print(m.value) + after), ':') == Some(Print(m.value) + after)
  {
    hide Escape, ParseChars, Print, SkipWhite, Quoted;
    var tail := ":" + (Print(m.value) + after);
    var s := PrintMember(m) + after;
    chars := Escape(m.key) + "\"" + tail;
    Assoc(Quoted(m.key) + ":", Print(m.value), after);
    Assoc(Quoted(m.key), ":", Print(m.value) + after);
    QuotedTail(m.key, tail);
    StringBack(m.key, tail);
    assert s == Quoted(m.key) + tail;
    ExpectIt(s, '"');
    ExpectIt(tail, ':');
    assert tail[1..] == Print(m.value) + after;
  }

  lemma LastMember(m: Member, rest: string)
    requires Back(m.value, "}" + rest)
    ensures ParseMembers(PrintMember(m) + ("}" + rest)) == Some(Parsed(map[m.key := Erase(m.value)], rest))
  {
    hide ParseValue, ParseChars, Print, PrintMember, Erase, Expect;
    var chars := MemberReads(m, "}" + rest);
    CloseBrace(rest);
  }

  lemma CloseBrace(rest: string)
    ensures Expect("}" + rest, '}') == Some(rest)
  {
    ExpectIt("}" + rest, '}');
    assert ("}" + rest)[1..] == rest;
  }

  lemma CommaNext(t: string)
    ensures Expect("," + t, '}') == None && Expect("," + t, ',') == Some(t)
  {
    ExpectIt("," + t, '}');
    ExpectIt("," + t, ',');
    assert ("," + t)[1..] == t;
  }

  lemma MoreMembers(m: Member, t: string, js: map<string, Json>, rest: string)
    requires Back(m.value, "," + t) && ParseMembers(t) == Some(Parsed(js, rest))
    ensures ParseMembers(PrintMember(m) + ("," + t)) == Some(Parsed(map[m.key := Erase(m.value)] + js, rest))
  {
    hide ParseValue, ParseChars, Print, PrintMember, Erase, Expect;
    var chars := MemberReads(m, "," + t);
    CommaNext(t);
  }

  lemma EraseOne(members: seq<Member>, k: nat)
    requires k < |members|
    ensures EraseFrom(members, k) == if k + 1 == |members| then map[members[k].key := Erase(members[k].value)]
                                     else map[members[k].key := Erase(members[k].value)] + EraseFrom(members, k + 1)
  {
    hide Erase;
  }

  lemma PartOf(members: seq<Member>, k: nat)
    requires k < |members|
    ensures Commas(PrintMembers(members)[k..])
         == if k + 1 == |members| then PrintMember(members[k])
            else PrintMember(members[k]) + "," + Commas(PrintMembers(members)[k + 1..])
  {
    hide Commas, PrintMember;
    CommasTail(PrintMembers(members), k);
  }

  lemma {:induction false} MembersBack(members: seq<Member>, k: nat, rest: string)
    requires k < |members|
    requires forall i, rest' {:trigger Back(members[i].value, rest')} ::
               0 <= i < |members| && NumberEnds(rest') ==> Back(members[i].value, rest')
    ensures ParseMembers(Commas(PrintMembers(members)[k..]) + "}" + rest) == Some(Parsed(EraseFrom(members, k), rest))
    decreases |members| - k
  {
    hide Commas, Print, PrintMembers, Erase, EraseFrom, NumberEnds, ParseMembers, ParseValue, PrintMember, Back;
    if k + 1 < |members| {
      MembersBack(members, k + 1, rest);
    }
    var part := PrintMember(members[k]);
    PartOf(members, k);
    EraseOne(members, k);
    if k + 1 == |members| {
      Ends('}', rest);
      assert Back(members[k].value, "}" + rest);
      LastMember(members[k], rest);
      Assoc(part, "}", rest);
    } else {
      var inner := Commas(PrintMembers(members)[k + 1..]);
      var t := inner + "}" + rest;
      Ends(',', t);
      assert Back(members[k].value, "," + t);
      MoreMembers(members[k], t, EraseFrom(members, k + 1), rest);
      Regroup(part, inner, "}", rest);
    }
  }

  lemma ArrReads(inner: string, rest: string, js: seq<Json>)
    requires if inner == "" then js == [] else
               Expect(inner + "]" + rest, ']') == None && ParseElements(inner + "]" + rest) == Some(Parsed(js, rest))
    ensures ParseValue("[" + inner + "]" + rest) == Some(Parsed(JArr(js), rest))
  {
    hide ParseElements;
    var s := "[" + inner + "]" + rest;
    assert s[1..] == inner + "]" + rest;
    assert SkipWhite(s) == s;
    if inner == "" {
      assert inner + "]" + rest == "]" + rest;
      ExpectIt("]" + rest, ']');
      assert ("]" + rest)[1..] == rest;
    }
  }

  lemma ArrBack(items: seq<Value>, rest: string)
    requires forall i, rest' {:trigger Back(items[i], rest')} :: 0 <= i < |items| && NumberEnds(rest') ==> Back(items[i], rest')
    ensures Back(Arr(items), rest)
  {
    hide PrintItems, ParseElements, ParseValue, NumberEnds, Expect, Erase, EraseItems;
    ArrErased(items);
    EraseItemsSize(items, 0);
    if items != [] {
      ElementsBack(items, 0, rest);
      assert PrintItems(items)[0..] == PrintItems(items);
      FirstOfItems(items, rest);
    }
    ArrReads(Commas(PrintItems(items)), rest, EraseItems(items, 0));
  }

  lemma FirstOfItems(items: seq<Value>, rest: string)
    requires items != []
    ensures Expect(Commas(PrintItems(items)) + "]" + rest, ']') == None && Commas(PrintItems(items)) != ""
  {
    hide Print, SkipWhite;
    CommasTail(PrintItems(items), 0);
    assert PrintItems(items)[0..] == PrintItems(items);
    PrintStart(items[0]);
    ExpectIt(Commas(PrintItems(items)) + "]" + rest, ']');
  }

  lemma ObjReads(inner: string, rest: string, js: map<string, Json>)
    requires if inner == "" then js == map[] else
               Expect(inner + "}" + rest, '}') == None && ParseMembers(inner + "}" + rest) == Some(Parsed(js, rest))
    ensures ParseValue("{" + inner + "}" + rest) == Some(Parsed(JObj(js), rest))
  {
    hide ParseMembers;
    var s := "{" + inner + "}" + rest;
    assert s[1..] == inner + "}" + rest;
    assert SkipWhite(s) == s;
    if inner == "" {
      assert inner + "}" + rest == "}" + rest;
      CloseBrace(rest);
    }
  }

  lemma ObjBack(members: seq<Member>, rest: string)
    requires forall i, rest' {:trigger Back(members[i].value, rest')} ::
               0 <= i < |members| && NumberEnds(rest') ==> Back(members[i].value, rest')
    ensures Back(Obj(members), rest)
  {
    hide PrintMembers, ParseMembers, ParseValue, NumberEnds, Expect;
    if members != [] {
      MembersBack(members, 0, rest);
      assert PrintMembers(members)[0..] == PrintMembers(members);
      FirstOfMembers(members, rest);
    }
    ObjReads(Commas(PrintMembers(members)), rest, EraseFrom(members, 0));
  }

  lemma FirstOfMembers(members: seq<Member>, rest: string)
    requires members != []
    ensures Expect(Commas(PrintMembers(members)) + "}" + rest, '}') == None && Commas(PrintMembers(members)) != ""
  {
    hide Print, SkipWhite, Escape;
    CommasTail(PrintMembers(members), 0);
    assert PrintMembers(members)[0..] == PrintMembers(members);
    ExpectIt(Commas(PrintMembers(members)) + "}" + rest, '}');
  }

  function AsStrs(texts: seq<string>): seq<Value> {
    seq(|texts|, i requires 0 <= i < |texts| => Str(texts[i]))
  }

  lemma StrsAsArr(texts: seq<string>)
    ensures Print(Strs(texts)) == Print(Arr(AsStrs(texts))) && Erase(Strs(texts)) == Erase(Arr(AsStrs(texts)))
  {
    hide Quoted, Commas;
    assert PrintTexts(texts) == PrintItems(AsStrs(texts));
    assert Erase(Strs(texts)).items == Erase(Arr(AsStrs(texts))).items;
  }

  /**
   Whatever is printed, followed by anything that does not go on with a number, is
   read back as what it means, and the parser stops exactly where the print ends.
   */
  lemma {:induction false} ValueBack(v: Value, rest: string)
    requires NumberEnds(rest)
    ensures ParseValue(Print(v) + rest) == Some(Parsed(Erase(v), rest))
    decreases v
  {
    assert Back(v, rest) by {
      match v
      case Null => SimpleBack(v, rest);
      case Bool(_) => SimpleBack(v, rest);
      case Int(n) => IntBack(n, rest);
      case Str(s) => StrBack(s, rest);
      case Arr(items) =>
        forall i, rest' | 0 <= i < |items| && NumberEnds(rest')
          ensures Back(items[i], rest')
        {
          ValueBack(items[i], rest');
        }
        ArrBack(items, rest);
      case Strs(texts) =>
        forall i, rest' | 0 <= i < |AsStrs(texts)| && NumberEnds(rest')
          ensures Back(AsStrs(texts)[i], rest')
        {
          StrBack(texts[i], rest');
        }
        ArrBack(AsStrs(texts), rest);
        StrsAsArr(texts);
      case Obj(members) =>
        forall i, rest' | 0 <= i < |members| && NumberEnds(rest')
          ensures Back(members[i].value, rest')
        {
          ValueBack(members[i].value, rest');
        }
        ObjBack(members, rest);
    }
  }

  // ----- The order of a map -----

  predicate DistinctKeys(members: seq<Member>) {
    forall i, j :: 0 <= i < j < |members| ==> members[i].key != members[j].key
  }

  lemma {:induction false} EraseHolds(members: seq<Member>, k: nat, key: string)
    requires k <= |members| && DistinctKeys(members)
    ensures key in EraseFrom(members, k) <==> exists i :: k <= i < |members| && members[i].key == key
    ensures forall i :: k <= i < |members| && members[i].key == key ==> EraseFrom(members, k)[key] == Erase(members[i].value)
    decreases |members| - k
  {
    hide Erase;
    if k < |members| {
      EraseHolds(members, k + 1, key);
    }
  }

  /** The same map printed in another order means the same. */
  lemma OrderForgotten(members: seq<Member>, members': seq<Member>)
    requires DistinctKeys(members) && DistinctKeys(members')
    requires forall m :: m in members <==> m in members'
    ensures Erase(Obj(members)) == Erase(Obj(members'))
  {
    hide Erase;
    forall key
      ensures key in EraseFrom(members, 0) <==> key in EraseFrom(members', 0)
      ensures key in EraseFrom(members, 0) ==> EraseFrom(members, 0)[key] == EraseFrom(members', 0)[key]
    {
      EraseHolds(members, 0, key);
      EraseHolds(members', 0, key);
      if i :| 0 <= i < |members| && members[i].key == key {
        assert members[i] in members';
      }
      if i :| 0 <= i < |members'| && members'[i].key == key {
        assert members'[i] in members;
      }
    }
    ObjErased(members);
    ObjErased(members');
    assert EraseFrom(members, 0) == EraseFrom(members', 0);
  }

  lemma ObjErased(members: seq<Member>)
    ensures Erase(Obj(members)) == JObj(EraseFrom(members, 0))
  {
  }
}
