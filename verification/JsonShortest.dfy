/**
 The printer writes the shortest text there is: no text that is read as a value is
 shorter than its print, the escapes of backspace and form feed aside.
 */
module JsonShortest {
  import opened Decimals
  import opened JsonParser
  import opened JsonRoundTrip
  import opened JsonSqueeze
  import opened JsonText
  import opened Options
  import opened Sequences

  /** The least number of characters with which a string can stand for c. */
  function LeastChar(c: char): nat {
    if c == 8 as char || c == 12 as char then 2 else |EscapeChar(c)|
  }

  function LeastChars(s: string): nat {
    if s == "" then 0 else LeastChar(s[0]) + LeastChars(s[1..])
  }

  /** The least length of a text that is read as v. */
  function Least(v: Value): nat {
    match v
    case Null => 4
    case Bool(b) => if b then 4 else 5
    case Int(n) => |Signed(n)|
    case Str(s) => 2 + LeastChars(s)
    case Arr(items) => if items == [] then 2 else 1 + LeastItems(items)
    case Strs(texts) => if texts == [] then 2 else 1 + LeastTexts(texts)
    case Obj(members) => if members == [] then 2 else 1 + LeastMembers(members)
  }

  /** Each item with the comma or bracket behind it. */
  function LeastItems(items: seq<Value>): nat {
    if items == [] then 0 else Least(items[0]) + 1 + LeastItems(items[1..])
  }

  function LeastTexts(texts: seq<string>): nat {
    if texts == [] then 0 else 2 + LeastChars(texts[0]) + 1 + LeastTexts(texts[1..])
  }

  function LeastMember(m: Member): nat {
    LeastChars(m.key) + 3 + Least(m.value)
  }

  function LeastMembers(members: seq<Member>): nat {
    if members == [] then 0 else LeastMember(members[0]) + 1 + LeastMembers(members[1..])
  }

  // ----- Strings and numbers -----

  lemma {:induction false} LeastCharsAppend(s: string, t: string)
    ensures LeastChars(s + t) == LeastChars(s) + LeastChars(t)
  {
    hide LeastChar;
    if s == "" {
      assert s + t == t;
    } else {
      assert (s + t)[1..] == s[1..] + t;
      LeastCharsAppend(s[1..], t);
    }
  }

  lemma EscapeCosts(s: string)
    requires ParseEscape(s).Some?
    ensures LeastChars(ParseEscape(s).value.value) + |ParseEscape(s).value.rest| <= 1 + |s|
  {
    var v := ParseEscape(s).value.value;
    if |v| == 1 {
      assert LeastChars(v) == LeastChar(v[0]) + LeastChars(v[1..]) == LeastChar(v[0]);
    } else if |v| == 2 {
      LeastCharsAppend([v[0]], [v[1]]);
      assert v == [v[0]] + [v[1]];
    } else {
      LeastCharsAppend([v[0]] + [v[1]], [v[2]]);
      LeastCharsAppend([v[0]], [v[1]]);
      assert v == [v[0]] + [v[1]] + [v[2]];
    }
  }

  lemma {:induction false} CharsCost(s: string)
    requires ParseChars(s).Some?
    ensures LeastChars(ParseChars(s).value.value) + |ParseChars(s).value.rest| + 1 <= |s|
    decreases |s|
  {
    hide LeastChar, ParseEscape;
    if s[0] == '"' {
    } else if s[0] == '\\' {
      var e := ParseEscape(s[1..]).value;
      EscapeCosts(s[1..]);
      CharsCost(e.rest);
      LeastCharsAppend(e.value, ParseChars(e.rest).value.value);
    } else {
      CharsCost(s[1..]);
      LeastCharsAppend([s[0]], ParseChars(s[1..]).value.value);
      PlainCost(s[0]);
    }
  }

  lemma PlainCost(c: char)
    ensures LeastChars([c]) == LeastChar(c)
    ensures c >= ' ' && c != '"' && c != '\\' ==> LeastChar(c) == 1
  {
    assert [c][1..] == [];
  }

  /** No digits for n are fewer than its decimal. */
  lemma {:induction false} DecimalCost(d: string)
    requires d != "" && forall i :: 0 <= i < |d| ==> IsDigit(d[i])
    ensures |Decimal(Number(d))| <= |d|
  {
    var n := Number(d);
    var front := d[..|d| - 1];
    if n >= 10 {
      assert n / 10 == Number(front);
      assert Number("") == 0;
      DecimalCost(front);
    }
  }

  lemma NumberCost(s: string)
    requires ParseNumber(s).Some? && ParseNumber(s).value.value.JInt?
    ensures |Signed(ParseNumber(s).value.value.n)| + |ParseNumber(s).value.rest| <= |s|
  {
    hide Decimal, Number, Fraction, Exponent, IntLength;
    var minus := if s != "" && s[0] == '-' then 1 else 0;
    var t := s[minus..];
    DecimalCost(t[..IntLength(t)]);
    DecimalZero();
  }

  lemma DecimalZero()
    ensures |Decimal(0)| == 1
  {
  }

  // ----- Values -----

  /** r is what is left of s behind at least n characters. */
  predicate Uses(s: string, rest: string, n: nat) {
    |rest| + n <= |s|
  }

  lemma ExpectCost(s: string, c: char)
    ensures Expect(s, c).Some? ==> Uses(s, Expect(s, c).value, 1)
  {
  }

  /** No object in v has two members of one name: as in a Go map. */
  predicate Distinct(v: Value) {
    match v
    case Arr(items) => forall i :: 0 <= i < |items| ==> Distinct(items[i])
    case Obj(members) => DistinctKeys(members) && forall i :: 0 <= i < |members| ==> Distinct(members[i].value)
    case _ => true
  }

  /** The members are found in fields, each under a name of its own. */
  ghost predicate Held(members: seq<Member>, fields: map<string, Json>) {
    && DistinctKeys(members)
    && forall i :: 0 <= i < |members| ==>
         && Distinct(members[i].value)
         && members[i].key in fields && fields[members[i].key] == Erase(members[i].value)
  }

  lemma HeldErased(members: seq<Member>)
    requires Distinct(Obj(members))
    ensures Held(members, EraseFrom(members, 0))
  {
    hide Erase, EraseFrom;
    forall i | 0 <= i < |members|
      ensures members[i].key in EraseFrom(members, 0) && EraseFrom(members, 0)[members[i].key] == Erase(members[i].value)
    {
      EraseHolds(members, 0, members[i].key);
    }
  }

  lemma {:induction false} LeastMembersAppend(ms: seq<Member>, ms': seq<Member>)
    ensures LeastMembers(ms + ms') == LeastMembers(ms) + LeastMembers(ms')
  {
    hide LeastMember;
    if ms == [] {
      assert ms + ms' == ms';
    } else {
      assert (ms + ms')[1..] == ms[1..] + ms';
      LeastMembersAppend(ms[1..], ms');
    }
  }

  lemma LeastMembersFirst(m: Member, ms: seq<Member>)
    ensures LeastMembers([m] + ms) == LeastMember(m) + 1 + LeastMembers(ms)
  {
    hide LeastMember;
    assert ([m] + ms)[1..] == ms;
  }

  function Without(ms: seq<Member>, i: nat): seq<Member>
    requires i < |ms|
  {
    ms[..i] + ms[i + 1..]
  }

  lemma LeastWithout(ms: seq<Member>, i: nat)
    requires i < |ms|
    ensures LeastMembers(ms) == LeastMembers(Without(ms, i)) + LeastMember(ms[i]) + 1
  {
    hide LeastMember, LeastMembers;
    assert ms == ms[..i] + ([ms[i]] + ms[i + 1..]);
    LeastMembersFirst(ms[i], ms[i + 1..]);
    LeastMembersAppend(ms[..i], [ms[i]] + ms[i + 1..]);
    LeastMembersAppend(ms[..i], ms[i + 1..]);
  }

  /** Of the members that are held behind a first one, at most one is that first one. */
  lemma HeldBehind(ms: seq<Member>, key: string, j: Json, fields: map<string, Json>) returns (left: seq<Member>)
    requires Held(ms, map[key := j] + fields)
    ensures Held(left, fields)
    ensures left == ms || exists i :: 0 <= i < |ms| && left == Without(ms, i) && ms[i].key == key && Erase(ms[i].value) == j
  {
    hide Erase, Distinct;
    if i :| 0 <= i < |ms| && ms[i].key == key && key !in fields {
      left := Without(ms, i);
    } else {
      left := ms;
    }
  }

  /** A text that is read as an array of these items. */
  lemma {:induction false} ElementsCost(items: seq<Value>, s: string)
    requires ParseElements(s).Some? && |ParseElements(s).value.value| == |items|
    requires forall i :: 0 <= i < |items| ==> Distinct(items[i]) && ParseElements(s).value.value[i] == Erase(items[i])
    ensures Uses(s, ParseElements(s).value.rest, LeastItems(items))
    decreases |s|, 1
  {
    hide ParseValue, Erase, Least, Expect, Distinct;
    var p := ParseValue(s).value;
    ValueCost(items[0], s);
    ExpectCost(p.rest, ',');
    ExpectCost(p.rest, ']');
    if Expect(p.rest, ']').None? {
      var t := Expect(p.rest, ',').value;
      ElementsCost(items[1..], t);
    }
  }

  lemma {:induction false} LeastTextItems(texts: seq<string>)
    ensures LeastItems(AsStrs(texts)) == LeastTexts(texts)
  {
    if texts != [] {
      assert AsStrs(texts)[1..] == AsStrs(texts[1..]);
      LeastTextItems(texts[1..]);
    }
  }

  /** A text that is read as an object that holds these members. */
  lemma {:induction false} MembersCost(members: seq<Member>, s: string)
    requires ParseMembers(s).Some? && Held(members, ParseMembers(s).value.value)
    ensures Uses(s, ParseMembers(s).value.rest, LeastMembers(members))
    decreases |s|, 1
  {
    hide ParseValue, ParseChars, Erase, Least, Expect, Held, LeastMembers;
    var chars := Expect(s, '"').value;
    var key := ParseChars(chars).value;
    var text := Expect(key.rest, ':').value;
    var p := ParseValue(text).value;
    ExpectCost(s, '"');
    CharsCost(chars);
    ExpectCost(key.rest, ':');
    ExpectCost(p.rest, ',');
    ExpectCost(p.rest, '}');
    var left: seq<Member>;
    if Expect(p.rest, '}').Some? {
      assert map[key.value := p.value] == map[key.value := p.value] + map[];
      left := HeldBehind(members, key.value, p.value, map[]);
      HeldNothing(left, map[]);
    } else {
      var t := Expect(p.rest, ',').value;
      left := HeldBehind(members, key.value, p.value, ParseMembers(t).value.value);
      MembersCost(left, t);
    }
    if left != members {
      var i :| 0 <= i < |members| && left == Without(members, i)
               && members[i].key == key.value && Erase(members[i].value) == p.value;
      HeldDistinct(members, ParseMembers(s).value.value, i);
      ValueCost(members[i].value, text);
      LeastWithout(members, i);
    }
  }

  lemma HeldDistinct(members: seq<Member>, fields: map<string, Json>, i: nat)
    requires Held(members, fields) && i < |members|
    ensures Distinct(members[i].value)
  {
  }

  lemma HeldNothing(members: seq<Member>, fields: map<string, Json>)
    requires Held(members, fields)
    ensures members == [] || fields != map[]
    ensures LeastMembers([]) == 0
  {
    if members != [] {
      assert members[0].key in fields;
    }
  }

  lemma NumberKind(s: string)
    ensures ParseNumber(s).Some? ==> ParseNumber(s).value.value.JInt? || ParseNumber(s).value.value.JReal?
  {
    hide Number, Fraction, Exponent, IntLength;
  }

  /** No text that is read as v is shorter than Least(v). */
  lemma {:induction false} ValueCost(v: Value, s: string)
    requires ParseValue(s).Some? && ParseValue(s).value.value == Erase(v) && Distinct(v)
    ensures Uses(s, ParseValue(s).value.rest, Least(v))
    decreases |s|, 0
  {
    hide SkipWhite, ParseChars, ParseNumber, ParseElements, ParseMembers, LeastItems, LeastTexts, LeastMembers, LeastChars,
      EraseFrom;
    var t := SkipWhite(s);
    NumberKind(t);
    match v
    case Null =>
    case Bool(b) =>
    case Int(n) => NumberCost(t);
    case Str(text) => CharsCost(t[1..]);
    case Arr(items) =>
      ExpectCost(t[1..], ']');
      if Expect(t[1..], ']').None? {
        ElementsCost(items, t[1..]);
      }
    case Strs(texts) =>
      ExpectCost(t[1..], ']');
      if Expect(t[1..], ']').None? {
        LeastTextItems(texts);
        ElementsCost(AsStrs(texts), t[1..]);
      }
    case Obj(members) =>
      ExpectCost(t[1..], '}');
      HeldErased(members);
      if Expect(t[1..], '}').None? {
        MembersCost(members, t[1..]);
      } else {
        HeldNothing(members, EraseFrom(members, 0));
      }
  }

  // ----- The length of a print -----

  /** No string in v, name or value, holds a backspace or a form feed, which have a short escape that is not used. */
  predicate NoWaste(v: Value) {
    match v
    case Str(s) => Sparing(s)
    case Arr(items) => forall i :: 0 <= i < |items| ==> NoWaste(items[i])
    case Strs(texts) => forall i :: 0 <= i < |texts| ==> Sparing(texts[i])
    case Obj(members) => forall i :: 0 <= i < |members| ==> Sparing(members[i].key) && NoWaste(members[i].value)
    case _ => true
  }

  predicate Sparing(s: string) {
    forall i :: 0 <= i < |s| ==> s[i] != 8 as char && s[i] != 12 as char
  }

  /** n characters where `least` are needed: none too few, and none too many exactly if nothing is wasted. */
  predicate Above(n: nat, least: nat, spared: bool) {
    least <= n && (n == least <==> spared)
  }

  lemma {:induction false} EscapeLength(s: string)
    ensures Above(|Escape(s)|, LeastChars(s), Sparing(s))
  {
    if s != "" {
      EscapeLength(s[1..]);
      assert s == [s[0]] + s[1..];
    }
  }

  /** The lengths of the parts, each with the character behind it. */
  function Lengths(parts: seq<string>): nat {
    if parts == [] then 0 else |parts[0]| + 1 + Lengths(parts[1..])
  }

  lemma {:induction false} CommasLength(parts: seq<string>)
    requires parts != []
    ensures |Commas(parts)| + 1 == Lengths(parts)
  {
    if |parts| > 1 {
      CommasFront(parts[0], parts[1..]);
      assert parts == [parts[0]] + parts[1..];
      CommasLength(parts[1..]);
    }
  }

  lemma NoCommas()
    ensures Commas([]) == ""
  {
  }

  lemma {:induction false} ItemsLength(items: seq<Value>)
    ensures Above(Lengths(PrintItems(items)), LeastItems(items), forall i :: 0 <= i < |items| ==> NoWaste(items[i]))
    decreases items
  {
    hide Print, Least, NoWaste;
    if items != [] {
      PrintLength(items[0]);
      assert PrintItems(items)[1..] == PrintItems(items[1..]);
      ItemsLength(items[1..]);
      assert items == [items[0]] + items[1..];
    }
  }

  lemma {:induction false} TextsLength(texts: seq<string>)
    ensures Above(Lengths(PrintTexts(texts)), LeastTexts(texts), forall i :: 0 <= i < |texts| ==> Sparing(texts[i]))
  {
    hide Escape, Sparing;
    if texts != [] {
      EscapeLength(texts[0]);
      assert PrintTexts(texts)[1..] == PrintTexts(texts[1..]);
      TextsLength(texts[1..]);
      assert texts == [texts[0]] + texts[1..];
    }
  }

  lemma {:induction false} MembersLength(members: seq<Member>)
    ensures Above(Lengths(PrintMembers(members)), LeastMembers(members),
                  forall i :: 0 <= i < |members| ==> Sparing(members[i].key) && NoWaste(members[i].value))
    decreases members
  {
    hide Print, Least, Escape, Sparing, NoWaste;
    if members != [] {
      EscapeLength(members[0].key);
      PrintLength(members[0].value);
      assert PrintMembers(members)[1..] == PrintMembers(members[1..]);
      MembersLength(members[1..]);
      assert members == [members[0]] + members[1..];
    }
  }

  /** A print has the least length exactly if it wastes nothing. */
  lemma {:induction false} PrintLength(v: Value)
    ensures Above(|Print(v)|, Least(v), NoWaste(v))
    decreases v
  {
    hide Commas, Lengths, PrintItems, PrintTexts, PrintMembers, LeastItems, LeastTexts, LeastMembers, Escape, LeastChars, Sparing;
    NoCommas();
    match v
    case Null =>
    case Bool(b) =>
    case Int(n) =>
    case Str(s) => EscapeLength(s);
    case Arr(items) =>
      if items != [] {
        CommasLength(PrintItems(items));
        ItemsLength(items);
      }
    case Strs(texts) =>
      if texts != [] {
        CommasLength(PrintTexts(texts));
        TextsLength(texts);
      }
    case Obj(members) =>
      if members != [] {
        CommasLength(PrintMembers(members));
        MembersLength(members);
      }
  }

  // ----- The length of a print with short escapes -----

  /** In front of any text, p takes n characters with short escapes. */
  ghost predicate Squeezes(p: string, n: nat) {
    forall t :: |Squeeze(p + t)| == n + |Squeeze(t)|
  }

  lemma SqueezesBoth(p: string, n: nat, p': string, n': nat)
    requires Squeezes(p, n) && Squeezes(p', n')
    ensures Squeezes(p + p', n + n')
  {
    hide Squeeze;
    forall t
      ensures |Squeeze(p + p' + t)| == n + n' + |Squeeze(t)|
    {
      Assoc(p, p', t);
      assert |Squeeze(p + (p' + t))| == n + |Squeeze(p' + t)|;
    }
  }

  lemma SqueezesPlain(p: string)
    requires NoBackslash(p)
    ensures Squeezes(p, |p|)
  {
    hide Squeeze;
    forall t
      ensures |Squeeze(p + t)| == |p| + |Squeeze(t)|
    {
      SqueezeBehind(p, t);
    }
  }

  lemma SqueezesChar(c: char)
    ensures Squeezes(EscapeChar(c), LeastChar(c))
  {
    var e := EscapeChar(c);
    if e == [c] {
      hide Squeeze;
      SqueezesPlain(e);
    } else {
      forall t
        ensures |Squeeze(e + t)| == LeastChar(c) + |Squeeze(t)|
      {
        if |e| == 2 {
          TwoCharacters(e, t);
        } else {
          SixCharacters(c, t);
        }
      }
    }
  }

  lemma TwoCharacters(e: string, t: string)
    requires |e| == 2 && e[0] == '\\' && e[1] != 'u'
    ensures |Squeeze(e + t)| == 2 + |Squeeze(t)|
  {
    var s := e + t;
    assert s[2..] == t && s[1] == e[1];
    assert |s| >= 6 ==> s[1..6][0] == e[1];
  }

  lemma SixCharacters(c: char, t: string)
    requires |EscapeChar(c)| == 6
    ensures |Squeeze(EscapeChar(c) + t)| == LeastChar(c) + |Squeeze(t)|
  {
    var e := EscapeChar(c);
    var high, low := HexChar(c as int / 16), HexChar(c as int % 16);
    var s := e + t;
    assert s[6..] == t && s[1..6] == ['u', '0', '0', high, low];
    if c == 8 as char || c == 12 as char {
      assert HasShort(s);
    } else {
      assert !HasShort(s) by {
        assert s[1..6][3] == high && s[1..6][4] == low;
        assert "u0008"[3] == '0' && "u0008"[4] == '8' && "u000c"[3] == '0' && "u000c"[4] == 'c';
      }
      var d := ['0', '0', high, low];
      assert s[2..] == d + t;
      SqueezeBehind(d, t);
    }
  }

  lemma {:induction false} SqueezesEscape(s: string)
    ensures Squeezes(Escape(s), LeastChars(s))
  {
    hide Squeeze, EscapeChar, LeastChar;
    if s == "" {
      SqueezesPlain("");
    } else {
      SqueezesChar(s[0]);
      SqueezesEscape(s[1..]);
      SqueezesBoth(EscapeChar(s[0]), LeastChar(s[0]), Escape(s[1..]), LeastChars(s[1..]));
    }
  }

  lemma SqueezesQuoted(s: string)
    ensures Squeezes(Quoted(s), 2 + LeastChars(s))
  {
    hide Squeezes, Escape;
    SqueezesPlain("\"");
    SqueezesEscape(s);
    SqueezesBoth("\"", 1, Escape(s), LeastChars(s));
    SqueezesBoth("\"" + Escape(s), 1 + LeastChars(s), "\"", 1);
  }

  /** A part in front of further parts. */
  lemma SqueezesNext(part: string, n: nat, parts: seq<string>, k: nat)
    requires Squeezes(part, n) && parts != [] && Squeezes(Commas(parts), k)
    ensures Squeezes(Commas([part] + parts), n + 1 + k)
  {
    hide Squeezes, Commas;
    SqueezesPlain(",");
    CommasFront(part, parts);
    SqueezesBoth(part, n, ",", 1);
    SqueezesBoth(part + ",", n + 1, Commas(parts), k);
  }

  lemma SqueezesEnclosed(open: string, p: string, n: nat, close: string)
    requires Squeezes(p, n) && |open| == 1 && |close| == 1 && NoBackslash(open) && NoBackslash(close)
    ensures Squeezes(open + p + close, n + 2)
  {
    hide Squeezes;
    SqueezesPlain(open);
    SqueezesPlain(close);
    SqueezesBoth(open, 1, p, n);
    SqueezesBoth(open + p, 1 + n, close, 1);
  }

  lemma {:induction false} SqueezesItems(items: seq<Value>)
    requires items != []
    ensures LeastItems(items) > 0 && Squeezes(Commas(PrintItems(items)), LeastItems(items) - 1)
    decreases items
  {
    hide Squeezes, Print, Least, Commas;
    SqueezesPrint(items[0]);
    assert PrintItems(items) == [Print(items[0])] + PrintItems(items[1..]);
    if |items| > 1 {
      SqueezesItems(items[1..]);
      SqueezesNext(Print(items[0]), Least(items[0]), PrintItems(items[1..]), LeastItems(items[1..]) - 1);
    } else {
      assert PrintItems(items) == [Print(items[0])];
      SingleComma(Print(items[0]));
    }
  }

  lemma SingleComma(part: string)
    ensures Commas([part]) == part
  {
  }

  lemma SqueezesMember(m: Member, n: nat)
    requires Squeezes(Print(m.value), n)
    ensures Squeezes(PrintMember(m), LeastChars(m.key) + 3 + n)
  {
    hide Squeezes, Print, Quoted;
    SqueezesQuoted(m.key);
    SqueezesPlain(":");
    SqueezesBoth(Quoted(m.key), 2 + LeastChars(m.key), ":", 1);
    SqueezesBoth(Quoted(m.key) + ":", 3 + LeastChars(m.key), Print(m.value), n);
  }

  lemma {:induction false} SqueezesMembers(members: seq<Member>)
    requires members != []
    ensures LeastMembers(members) > 0 && Squeezes(Commas(PrintMembers(members)), LeastMembers(members) - 1)
    decreases members
  {
    hide Squeezes, Print, Least, Commas, PrintMember;
    var m := members[0];
    SqueezesPrint(m.value);
    SqueezesMember(m, Least(m.value));
    assert PrintMembers(members) == [PrintMember(m)] + PrintMembers(members[1..]);
    if |members| > 1 {
      SqueezesMembers(members[1..]);
      SqueezesNext(PrintMember(m), LeastMember(m), PrintMembers(members[1..]), LeastMembers(members[1..]) - 1);
    } else {
      assert PrintMembers(members) == [PrintMember(m)];
      SingleComma(PrintMember(m));
    }
  }

  lemma {:induction false} SqueezesTexts(texts: seq<string>)
    requires texts != []
    ensures LeastTexts(texts) > 0 && Squeezes(Commas(PrintTexts(texts)), LeastTexts(texts) - 1)
  {
    hide Squeezes, Quoted, Commas;
    SqueezesQuoted(texts[0]);
    assert PrintTexts(texts) == [Quoted(texts[0])] + PrintTexts(texts[1..]);
    if |texts| > 1 {
      SqueezesTexts(texts[1..]);
      SqueezesNext(Quoted(texts[0]), 2 + LeastChars(texts[0]), PrintTexts(texts[1..]), LeastTexts(texts[1..]) - 1);
    } else {
      assert PrintTexts(texts) == [Quoted(texts[0])];
      SingleComma(Quoted(texts[0]));
    }
  }

  lemma SignedPlain(n: int)
    ensures NoBackslash(Signed(n))
  {
  }

  /** With short escapes a print takes the least length there is. */
  lemma {:induction false} SqueezesPrint(v: Value)
    ensures Squeezes(Print(v), Least(v))
    decreases v
  {
    hide Squeezes, Commas, PrintItems, PrintTexts, PrintMembers, LeastItems, LeastTexts, LeastMembers, Quoted, LeastChars,
      Decimal;
    NoCommas();
    match v
    case Null => SqueezesPlain("null");
    case Bool(b) => SqueezesPlain(if b then "true" else "false");
    case Int(n) =>
      SignedPlain(n);
      SqueezesPlain(Signed(n));
    case Str(s) => SqueezesQuoted(s);
    case Arr(items) =>
      if items == [] {
        SqueezesPlain("[" + "" + "]");
      } else {
        SqueezesItems(items);
        SqueezesEnclosed("[", Commas(PrintItems(items)), LeastItems(items) - 1, "]");
      }
    case Strs(texts) =>
      if texts == [] {
        SqueezesPlain("[" + "" + "]");
      } else {
        SqueezesTexts(texts);
        SqueezesEnclosed("[", Commas(PrintTexts(texts)), LeastTexts(texts) - 1, "]");
      }
    case Obj(members) =>
      if members == [] {
        SqueezesPlain("{" + "" + "}");
      } else {
        SqueezesMembers(members);
        SqueezesEnclosed("{", Commas(PrintMembers(members)), LeastMembers(members) - 1, "}");
      }
  }

  // ----- The print is the shortest text -----

  /** A text that is read as v, up to rest. */
  ghost predicate Reads(v: Value, s: string) {
    ParseValue(s).Some? && ParseValue(s).value.value == Erase(v)
  }

  /** The least length is reached: the print with short escapes is read as v, to its end. */
  lemma LeastReached(v: Value)
    ensures ParseValue(Squeeze(Print(v))) == Some(Parsed(Erase(v), "")) && |Squeeze(Print(v))| == Least(v)
  {
    hide Squeeze, Print, Least, ParseValue, Erase;
    ValueBack(v, "");
    assert Print(v) + "" == Print(v);
    ValueSqueezed(Print(v));
    SqueezesPrint(v);
    EmptySqueezed();
  }

  /**
   The printer writes the shortest text of a value, of all that are read as v, with
   any whitespace and any escapes, in any order of members and with members
   repeated, exactly if no string in v holds a backspace or a form feed.
   */
  lemma ShortestExactly(v: Value)
    requires Distinct(v)
    ensures NoWaste(v) <==> forall s :: Reads(v, s) ==> |Print(v)| + |ParseValue(s).value.rest| <= |s|
  {
    hide Print, Least, ParseValue, Erase, Distinct, NoWaste, Squeeze;
    PrintLength(v);
    forall s | Reads(v, s)
      ensures Least(v) + |ParseValue(s).value.rest| <= |s|
    {
      ValueCost(v, s);
    }
    LeastReached(v);
    assert Reads(v, Squeeze(Print(v)));
  }
}
