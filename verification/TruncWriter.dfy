/**
 truncWriter of ws/compression.go: it passes on all but the last four bytes of a
 stream, so that the tail which section 7.2.1 of RFC 7692 wants removed is cut.
 */
module TruncWriter {
  import opened Bytes
  import opened Sequences

  const TAIL: bytes := [0, 0, 0xFF, 0xFF]

  /** The last n bytes. */
  function Last(s: bytes, n: nat): (r: bytes)
    requires n <= |s|
    ensures |r| == n
  {
    s[|s| - n..]
  }

  class Writer {
    /** What the writer below has taken. */
    var out: bytes
    var n: nat
    const p: array<byte>
    /** Everything written so far. */
    ghost var written: bytes

    /** What went out and what is held make up all that was written; the held part is its last min(4, total) bytes. */
    ghost predicate Valid()
      reads this, p
    {
      && p.Length == 4
      && n == Min(4, |written|)
      && out + p[..n] == written
      && forall i :: n <= i < 4 ==> p[i] == 0
    }

    constructor ()
      ensures Valid() && written == [] && out == []
      ensures fresh(p)
    {
      p := new byte[4](_ => 0);
      out, n, written := [], 0, [];
    }

    /** The writer below: it may fail after having taken a part. */
    method Forward(s: bytes) returns (nn: nat, ok: bool)
      modifies this`out
      ensures nn <= |s| && (ok ==> nn == |s|) && out == old(out) + s[..nn]
    {
      nn, ok := |s|, true;
      var fails: bool := *;
      if fails {
        nn, ok := *, false;
        if nn > |s| {
          nn := |s|;
        }
      }
      out := out + s[..nn];
    }

    /** copy(w.p[w.n:], s): fills what is free. */
    method Fill(s: bytes) returns (k: nat)
      requires Valid() && n < 4
      modifies this`n, this`written, p
      ensures Valid() && k == Min(4 - old(n), |s|) && written == old(written) + s[..k]
    {
      k := Min(4 - n, |s|);
      ghost var was := p[..n];
      for i := 0 to k
        modifies p
        invariant p[..n + i] == was + s[..i]
        invariant forall j :: n + i <= j < 4 ==> p[j] == 0
      {
        p[n + i] := s[i];
      }
      n, written := n + k, written + s[..k];
      Assoc(out, was, s[..k]);
    }

    /** The first m held bytes go out, the others move up, and the last m of s are held behind them. */
    method Shift(s: bytes, m: nat)
      requires p.Length == 4 && m <= 4 && m <= |s|
      modifies p
      ensures p[..] == old(p[m..]) + Last(s, m)
    {
      forall i | 0 <= i < 4 - m {
        p[i] := p[i + m];
      }
      forall i | 0 <= i < m {
        p[4 - m + i] := s[|s| - m + i];
      }
    }

    /** Once four bytes are held: the oldest of what is held and new goes out. */
    method Pass(rest: bytes) returns (nn: nat, ok: bool)
      requires Valid() && n == 4
      modifies this`out, this`written, p
      ensures written == old(written) + rest && out <= written
      ensures ok ==> Valid() && nn == |rest| - Min(4, |rest|)
    {
      hide Last;
      var m := Min(4, |rest|);
      ghost var held, gone := p[..], out;
      assert p[..4] == p[..] && p[..m] == held[..m] && p[m..] == held[m..];
      written := written + rest;
      assert written == gone + held + rest;
      nn, ok := Forward(p[..m]);
      if !ok {
        HeldPrefix(gone, held, rest, m, nn);
        return;
      }
      assert held[..m][..m] == held[..m];
      Shift(rest, m);
      nn, ok := Forward(rest[..|rest| - m]);
      Cut(gone, held, rest, m, nn);
      assert p[..4] == p[..];
    }

    /**
     Write. While the writer below does not fail everything written is kept; if it
     fails, what it has taken is still a prefix of what was written. The count
     returned leaves out the bytes that replaced held ones.
     */
    method Write(s: bytes) returns (count: nat, ok: bool)
      requires Valid()
      modifies this, p
      ensures written == old(written) + s && out <= written
      ensures ok ==> Valid()
      ensures ok ==> count == if old(n) + |s| <= 4 then |s| else |s| - Min(4, |s| - (4 - old(n)))
    {
      hide Last;
      var k, rest := 0, s;
      if n < p.Length {
        k := Fill(s);
        rest := s[k..];
        assert s == s[..k] + rest;
        Assoc(old(written), s[..k], rest);
        if |rest| == 0 {
          assert s[..k] == s;
          return k, true;
        }
      }
      var nn;
      nn, ok := Pass(rest);
      count := k + nn;
    }

    /** Exactly the last min(4, total) bytes are held back, in whatever pieces the stream came. */
    lemma HeldIsTail()
      requires Valid()
      ensures var h := Min(4, |written|);
              p[..n] == Last(written, h) && out == written[..|written| - h]
    {
      assert written[|out|..] == p[..n];
    }

    /** Close of the wrapper: whether the held bytes are the tail that is to be cut. */
    method HoldsTail() returns (cut: bool)
      requires Valid()
      ensures cut <==> |written| >= 4 && Last(written, 4) == TAIL
      ensures cut ==> written == out + TAIL
    {
      cut := p[0] == 0 && p[1] == 0 && p[2] == 0xFF && p[3] == 0xFF;
      if |written| >= 4 {
        assert Last(written, 4) == p[..4] == [p[0], p[1], p[2], p[3]];
      }
    }
  }

  lemma HeldPrefix(gone: bytes, held: bytes, rest: bytes, m: nat, nn: nat)
    requires m <= |held| && nn <= m
    ensures gone + held[..m][..nn] <= gone + held + rest
  {
    assert held[..m][..nn] == held[..nn];
    assert gone + held + rest == gone + held[..nn] + (held[nn..] + rest);
  }

  lemma Cut(gone: bytes, held: bytes, rest: bytes, m: nat, nn: nat)
    requires |held| == 4 && m == Min(4, |rest|) && nn <= |rest| - m
    ensures gone + held[..m] + rest[..|rest| - m][..nn] <= gone + held + rest
    ensures nn == |rest| - m ==>
              gone + held[..m] + rest[..|rest| - m][..nn] + (held[m..] + Last(rest, m)) == gone + held + rest
  {
    var x := rest[..|rest| - m][..nn];
    if m < 4 {
      assert x == [] && Last(rest, m) == rest;
      assert gone + held + rest == gone + held[..m] + (held[m..] + rest);
    } else {
      assert held[..m] == held && held[m..] == [];
      assert rest == x + rest[nn..];
      assert gone + held + rest == gone + held + x + rest[nn..];
    }
  }
}
