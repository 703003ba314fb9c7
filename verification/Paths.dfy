/** Splitting and joining paths at slashes: strings.Split, strings.Join and strings.Trim as radix.go uses them. */
module Paths {

  /** strings.Split(s, "/") */
  function Split(s: string): (r: seq<string>)
    ensures |r| >= 1
  {
    if s == "" then [""]
    else
      var r := Split(s[1..]);
      if s[0] == '/' then [""] + r else [[s[0]] + r[0]] + r[1..]
  }

  /** strings.Join(segments, "/") */
  function Join(segments: seq<string>): string {
    if segments == [] then ""
    else if |segments| == 1 then segments[0]
    else segments[0] + "/" + Join(segments[1..])
  }

  lemma {:induction false} JoinSplit(s: string)
    ensures Join(Split(s)) == s
  {
    if s != "" {
      JoinSplit(s[1..]);
      var r := Split(s[1..]);
      if s[0] == '/' {
        assert Split(s)[1..] == r;
        assert Join(Split(s)) == "" + "/" + s[1..];
      } else if |r| == 1 {
        assert Split(s) == [[s[0]] + r[0]];
      } else {
        assert Split(s)[1..] == r[1..];
        assert [s[0]] + r[0] + "/" + Join(r[1..]) == [s[0]] + (r[0] + "/" + Join(r[1..]));
      }
    }
  }

  /** The first segment ends at the first slash. */
  lemma {:induction false} SplitAtSlash(s: string, i: nat)
    requires i <= |s| && '/' !in s[..i]
    ensures i == |s| ==> Split(s) == [s]
    ensures i < |s| && s[i] == '/' ==> Split(s) == [s[..i]] + Split(s[i + 1..])
    decreases i
  {
    if s != "" && i > 0 {
      assert s[0] != '/' by {
        assert s[..i][0] == s[0];
      }
      assert s[1..][..i - 1] == s[..i][1..];
      SplitAtSlash(s[1..], i - 1);
      if i < |s| && s[i] == '/' {
        assert s[1..][i - 1 + 1..] == s[i + 1..];
        assert [s[0]] + s[1..][..i - 1] == s[..i];
      } else if i == |s| {
        assert [s[0]] + s[1..] == s;
      }
    }
  }

  function TrimLeft(s: string): string {
    if s != "" && s[0] == '/' then TrimLeft(s[1..]) else s
  }

  function TrimRight(s: string): string {
    if s != "" && s[|s| - 1] == '/' then TrimRight(s[..|s| - 1]) else s
  }

  /** strings.Trim(s, "/") */
  function Trim(s: string): string {
    TrimRight(TrimLeft(s))
  }

  predicate Slashes(s: string) {
    forall i :: 0 <= i < |s| ==> s[i] == '/'
  }

  /** Neither begins nor ends with a slash. */
  predicate Bare(s: string) {
    s != "" ==> s[0] != '/' && s[|s| - 1] != '/'
  }

  lemma {:induction false} TrimLeftIs(s: string) returns (a: string)
    ensures Slashes(a) && s == a + TrimLeft(s)
    ensures TrimLeft(s) != "" ==> TrimLeft(s)[0] != '/'
  {
    if s != "" && s[0] == '/' {
      a := TrimLeftIs(s[1..]);
      a := "/" + a;
    } else {
      a := "";
    }
  }

  lemma {:induction false} TrimRightIs(s: string) returns (b: string)
    ensures Slashes(b) && s == TrimRight(s) + b
    ensures TrimRight(s) != "" ==> TrimRight(s)[|TrimRight(s)| - 1] != '/'
  {
    if s != "" && s[|s| - 1] == '/' {
      b := TrimRightIs(s[..|s| - 1]);
      b := b + "/";
    } else {
      b := "";
    }
  }

  /** Slashes, and nothing else, are taken off both ends. */
  lemma TrimIs(s: string) returns (a: string, b: string)
    ensures Slashes(a) && Slashes(b) && s == a + Trim(s) + b && Bare(Trim(s))
  {
    hide TrimLeft, TrimRight;
    a := TrimLeftIs(s);
    b := TrimRightIs(TrimLeft(s));
    assert a + (Trim(s) + b) == a + Trim(s) + b;
  }

  /** So what is trimmed does not depend on how many slashes stand around it. */
  lemma TrimmedIs(a: string, s: string, b: string)
    requires Slashes(a) && Slashes(b) && Bare(s)
    ensures Trim(a + s + b) == s
  {
    hide Trim;
    var whole := a + s + b;
    var a', b' := TrimIs(whole);
    SameMiddle(a, s, b, a', Trim(whole), b');
  }

  lemma OnlySlashes(a: string, s: string, b: string)
    requires Slashes(a) && Slashes(b) && Bare(s)
    ensures Slashes(a + s + b) <==> s == ""
  {
    if s != "" {
      assert (a + s + b)[|a|] != '/';
    }
  }

  lemma SameMiddle(a: string, s: string, b: string, a': string, s': string, b': string)
    requires Slashes(a) && Slashes(b) && Bare(s) && Slashes(a') && Slashes(b') && Bare(s')
    requires a + s + b == a' + s' + b'
    ensures s == s'
  {
    var whole := a + s + b;
    OnlySlashes(a, s, b);
    OnlySlashes(a', s', b');
    if s != "" {
      assert s[0] == whole[|a|] && s'[0] == whole[|a'|];
      assert |a| == |a'|;
      assert s[|s| - 1] == whole[|a| + |s| - 1] && s'[|s'| - 1] == whole[|a'| + |s'| - 1];
      assert |s| == |s'|;
      assert s == whole[|a|..|a| + |s|] == s';
    }
  }

  /** Segments that hold no slash are split as they were joined. */
  lemma {:induction false} SplitJoin(segments: seq<string>)
    requires segments != [] && forall i :: 0 <= i < |segments| ==> '/' !in segments[i]
    ensures Split(Join(segments)) == segments
  {
    var first, s := segments[0], Join(segments);
    if |segments| == 1 {
      assert s[..|s|] == s;
      SplitAtSlash(s, |s|);
    } else {
      SplitJoin(segments[1..]);
      assert s == first + "/" + Join(segments[1..]);
      assert s[..|first|] == first && s[|first|] == '/' && s[|first| + 1..] == Join(segments[1..]);
      SplitAtSlash(s, |first|);
    }
  }

  /** strings.Join(origines, ",") */
  function JoinComma(ss: seq<string>): string {
    if ss == [] then "" else if |ss| == 1 then ss[0] else ss[0] + "," + JoinComma(ss[1..])
  }

  lemma {:induction false} JoinCommaAppend(ss: seq<string>, s: string)
    requires ss != []
    ensures JoinComma(ss + [s]) == JoinComma(ss) + "," + s
  {
    if |ss| == 1 {
      assert (ss + [s])[1..] == [s];
    } else {
      assert (ss + [s])[1..] == ss[1..] + [s];
      JoinCommaAppend(ss[1..], s);
      assert ss[0] + "," + (JoinComma(ss[1..]) + "," + s) == ss[0] + "," + JoinComma(ss[1..]) + "," + s;
    }
  }

  /** The builder loop with which a handler's origins are joined for the path "/". */
  method JoinOrigins(origins: seq<string>) returns (r: string)
    ensures r == JoinComma(origins)
  {
    r := "";
    for i := 0 to |origins|
      invariant r == JoinComma(origins[..i])
    {
      if i > 0 {
        JoinCommaAppend(origins[..i], origins[i]);
        r := r + ",";
      }
      assert origins[..i + 1] == origins[..i] + [origins[i]];
      r := r + origins[i];
    }
    assert origins[..|origins|] == origins;
  }
}
