/**
 Two message writers open on one connection. NextWriter does not end the first, and
 both buffer in writeBuf from the same place on: when what the first has buffered
 survives the other, and what goes out when it does not.
 */
module TwoWriters {
  import opened Bytes
  import opened ConnWriter
  import opened Frames
  import opened Masking
  import opened MessageWriting
  import opened Options

  /** Both are on the same connection. */
  ghost predicate Beside(w1: MessageWriter, w2: MessageWriter)
    reads w1, w2, w1.c, w2.c
  {
    w1 != w2 && w1.c == w2.c && w1.Usable() && w2.Valid() && w2.err == None
  }

  /** A write that fits is only copied behind what waits. */
  lemma FillFits(room: nat, st: Pending, p: bytes)
    requires |st.buffered| + |p| <= room && 0 < room
    ensures Fill(room, st, p) == Pending(st.sent, st.buffered + p)
  {
    if p == [] {
      assert st.buffered + p == st.buffered;
    } else {
      assert p[..|p|] == p && p[|p|..] == [];
    }
  }

  /** p was put into buf at `at`; what there was from MAX_HEADER to end is the same exactly if p is what was there. */
  lemma SameExactly(buf: bytes, buf': bytes, at: nat, p: bytes, end: nat)
    requires |buf'| == |buf| && MAX_HEADER <= at && at + |p| <= |buf| && MAX_HEADER <= end <= |buf|
    requires buf'[MAX_HEADER..at] == buf[MAX_HEADER..at] && buf'[at..at + |p|] == p && buf'[at + |p|..] == buf[at + |p|..]
    ensures buf'[MAX_HEADER..end] == buf[MAX_HEADER..end] <==>
            forall i :: 0 <= i < |p| && at + i < end ==> p[i] == buf[at + i]
  {
    assert forall j :: at <= j < at + |p| ==> buf'[j] == buf'[at..at + |p|][j - at];
    assert forall j :: MAX_HEADER <= j < at ==> buf'[j] == buf'[MAX_HEADER..at][j - MAX_HEADER] == buf[j];
    assert forall j :: at + |p| <= j < |buf| ==> buf'[j] == buf'[at + |p|..][j - at - |p|] == buf[j];
    if forall i :: 0 <= i < |p| && at + i < end ==> p[i] == buf[at + i] {
      forall j | MAX_HEADER <= j < end
        ensures buf'[j] == buf[j]
      {
        if at <= j < at + |p| {
          assert p[j - at] == buf[at + (j - at)];
        }
      }
    } else {
      var i :| 0 <= i < |p| && at + i < end && p[i] != buf[at + i];
      assert buf'[MAX_HEADER..end][at + i - MAX_HEADER] != buf[MAX_HEADER..end][at + i - MAX_HEADER];
    }
  }

  lemma Halves(s: bytes, lo: nat, at: nat, end: nat, a: bytes, b: bytes)
    requires lo <= at <= end <= |s| && |a| == at - lo && s[lo..end] == a + b
    ensures s[lo..at] == a && s[at..end] == b
  {
    assert (a + b)[..|a|] == a && (a + b)[|a|..] == b;
    assert s[lo..end][..|a|] == s[lo..at] && s[lo..end][|a|..] == s[at..end];
  }

  /** A Write of the second writer that fits its buffer keeps what the first holds exactly if it puts the same bytes there. */
  method WriteBeside(w1: MessageWriter, w2: MessageWriter, p: bytes) returns (e: Option<WriteError>)
    requires Beside(w1, w2) && w2.pos + |p| <= w2.c.writeBuf.Length
    requires w2.c.writeBuf.Length + |p| < INT64_LIMIT
    modifies w2, w2.c, w2.c.writeBuf
    ensures Beside(w1, w2) && e == None && w2.pos == old(w2.pos) + |p| && unchanged(w2.c)
    ensures w2.View() == Pending(old(w2.View()).sent, old(w2.View()).buffered + p)
    ensures w2.c.writeBuf[w2.pos..] == old(w2.c.writeBuf[w2.pos + |p|..])
    ensures w1.View() == old(w1.View()) <==>
            forall i :: 0 <= i < |p| && old(w2.pos) + i < w1.pos ==> p[i] == old(w1.c.writeBuf[w2.pos + i])
  {
    hide Woven, SendsMessage, EncodeAll, Encode, Fill;
    ghost var buf, at, before := w2.c.writeBuf[..], w2.pos, w2.View().buffered;
    FillFits(w2.c.writeBuf.Length - MAX_HEADER, w2.View(), p);
    e := w2.Write(p);
    ghost var buf' := w2.c.writeBuf[..];
    Halves(buf', MAX_HEADER, at, at + |p|, before, p);
    SameExactly(buf, buf', at, p, w1.pos);
    assert w1.c.writeBuf[MAX_HEADER..w1.pos] == buf'[MAX_HEADER..w1.pos];
    assert old(w1.c.writeBuf[MAX_HEADER..w1.pos]) == buf[MAX_HEADER..w1.pos];
  }

  /** Masking leaves the first n bytes of a payload alone exactly if the bytes of the key that meet them are 0. */
  lemma MaskKeeps(key: Key, s: bytes, n: nat)
    requires n <= |s|
    ensures Masked(key, 0, s)[..n] == s[..n] <==> forall i :: 0 <= i < n ==> key[i % 4] == 0
  {
    var m := Masked(key, 0, s);
    forall i | 0 <= i < n
      ensures m[i] == s[i] <==> key[i % 4] == 0
    {
      MaskedAt(key, 0, s, i);
      XorSame(s[i], key[i % 4]);
    }
    if m[..n] == s[..n] {
      forall i | 0 <= i < n
        ensures key[i % 4] == 0
      {
        assert m[..n][i] == s[..n][i];
      }
    }
  }

  /** How many bytes the two writers have both buffered, at the same places. */
  ghost function Shared(w1: MessageWriter, w2: MessageWriter): nat
    requires w1.Usable() && w2.Usable()
    reads w1, w2, w1.c, w2.c
  {
    (if w1.pos <= w2.pos then w1.pos else w2.pos) - MAX_HEADER
  }

  /**
   Close of the second writer. Its header is built in front of the payload, so a
   server keeps what the first holds; a client masks its own payload in place, and
   keeps it exactly if the bytes of the mask key that meet it are 0.
   */
  method CloseBeside(w1: MessageWriter, w2: MessageWriter) returns (e: Option<WriteError>, ghost f: Frame)
    requires Beside(w1, w2) && IsData(w2.messageType) && w2.c.writeBuf.Length < INT64_LIMIT
    modifies w2, w2.c, w2.c.writeBuf
    ensures w1.Usable() && (e == None || e == Some(SocketFailed))
    ensures Sends(w2.c.isServer, true, old(w2.frameType), old(w2.View()).buffered, f)
    ensures w2.c.wire == old(w2.c.wire) + if e == None then [f] else []
    ensures w2.c.writeBuf[old(w2.pos)..] == old(w2.c.writeBuf[w2.pos..])
    ensures w2.c.writeBuf[MAX_HEADER..old(w2.pos)]
         == (match f.mask case None => old(w2.View()).buffered case Some(k) => Masked(k, 0, old(w2.View()).buffered))
    ensures w1.View() == old(w1.View()) <==>
            f.mask.None? || forall i :: 0 <= i < old(Shared(w1, w2)) ==> f.mask.value[i % 4] == 0
  {
    hide Woven, SendsMessage, EncodeAll, Encode, Masked;
    ghost var buf, at, sent := w2.c.writeBuf[..], w2.pos, w2.View().buffered;
    ghost var n := Shared(w1, w2);
    e, f := w2.Close();
    ghost var buf' := w2.c.writeBuf[..];
    var mine := match f.mask case None => sent case Some(k) => Masked(k, 0, sent);
    if f.mask.Some? {
      MaskKeeps(f.mask.value, sent, n);
    }
    Covered(buf, buf', at, w1.pos, sent, mine, n);
  }

  /** The first `at` bytes of a payload region were replaced; the region up to end is the same exactly if the common part is. */
  lemma Covered(buf: bytes, buf': bytes, at: nat, end: nat, s: bytes, m: bytes, n: nat)
    requires |buf'| == |buf| && MAX_HEADER <= at <= |buf| && MAX_HEADER <= end <= |buf|
    requires n == (if end <= at then end else at) - MAX_HEADER
    requires buf[MAX_HEADER..at] == s && buf'[MAX_HEADER..at] == m && buf'[at..] == buf[at..]
    ensures buf'[MAX_HEADER..end] == buf[MAX_HEADER..end] <==> m[..n] == s[..n]
  {
    assert buf[MAX_HEADER..end][..n] == s[..n] && buf'[MAX_HEADER..end][..n] == m[..n];
    if end > at {
      assert buf[MAX_HEADER..end] == s + buf[at..][..end - at];
      assert buf'[MAX_HEADER..end] == m + buf'[at..][..end - at];
    }
  }

  // ----- Two messages -----

  /** a with b written over its start. */
  function Overlay(a: bytes, b: bytes): (r: bytes)
    ensures |r| == |a|
  {
    if |b| >= |a| then b[..|a|] else b + a[|b|..]
  }

  lemma OverlayIs(buf: bytes, buf': bytes, a: bytes, b: bytes)
    requires |buf'| == |buf| && MAX_HEADER + |a| <= |buf| && MAX_HEADER + |b| <= |buf|
    requires buf[MAX_HEADER..MAX_HEADER + |a|] == a && buf'[MAX_HEADER..MAX_HEADER + |b|] == b
    requires buf'[MAX_HEADER + |b|..] == buf[MAX_HEADER + |b|..]
    ensures buf'[MAX_HEADER..MAX_HEADER + |a|] == Overlay(a, b)
  {
    var lo, hi := MAX_HEADER + |b|, MAX_HEADER + |a|;
    if |b| >= |a| {
      assert buf'[MAX_HEADER..lo][..|a|] == buf'[MAX_HEADER..hi];
    } else {
      assert buf'[MAX_HEADER..hi] == b + buf'[lo..][..hi - lo];
      assert buf[MAX_HEADER..hi][|b|..] == buf[lo..][..hi - lo];
    }
  }

  /** What goes out is what was written exactly if the other message has the same bytes there. */
  lemma OverlaySame(a: bytes, b: bytes)
    ensures Overlay(a, b) == a <==> forall i :: 0 <= i < |a| && i < |b| ==> b[i] == a[i]
  {
    var r := Overlay(a, b);
    assert forall i :: 0 <= i < |a| ==> r[i] == if i < |b| then b[i] else a[i];
    if r == a {
      forall i | 0 <= i < |a| && i < |b|
        ensures b[i] == a[i]
      {
        assert r[i] == a[i];
      }
    }
  }

  /** A writer is opened and gets a message that fits the buffer. */
  method OpenWith(c: Conn, messageType: byte, a: bytes) returns (w: MessageWriter)
    requires c.Valid() && IsData(messageType)
    requires MAX_HEADER < c.writeBuf.Length && c.writeBuf.Length + |a| < INT64_LIMIT && MAX_HEADER + |a| <= c.writeBuf.Length
    modifies c, c.writeBuf
    ensures fresh(w) && unchanged(c) && w.Valid() && w.c == c && w.err == None
    ensures w.messageType == w.frameType == messageType && w.pos == MAX_HEADER + |a|
    ensures w.View() == Pending([], a)
  {
    hide Woven, SendsMessage, EncodeAll, Encode, Fill;
    w := new MessageWriter(c, messageType);
    FillFits(c.writeBuf.Length - MAX_HEADER, w.View(), a);
    var e := w.Write(a);
    assert [] + a == a;
  }

  /** Two writers are opened, and each gets a message that fits the buffer. */
  method OpenTwo(c: Conn, first: byte, second: byte, a: bytes, b: bytes) returns (w1: MessageWriter, w2: MessageWriter)
    requires c.Valid() && IsData(first) && IsData(second)
    requires MAX_HEADER < c.writeBuf.Length && c.writeBuf.Length + |a| + |b| < INT64_LIMIT
    requires MAX_HEADER + |a| <= c.writeBuf.Length && MAX_HEADER + |b| <= c.writeBuf.Length
    modifies c, c.writeBuf
    ensures fresh(w1) && fresh(w2) && unchanged(c) && Beside(w1, w2) && w1.c == c && w1.err == None
    ensures w1.messageType == w1.frameType == first && w2.messageType == w2.frameType == second
    ensures w1.pos == MAX_HEADER + |a| && w2.pos == MAX_HEADER + |b|
    ensures w1.View() == Pending([], Overlay(a, b)) && w2.View() == Pending([], b)
  {
    hide Woven, SendsMessage, EncodeAll, Encode, Fill, Overlay, AllWellFormed;
    w1 := OpenWith(c, first, a);
    ghost var buf := c.writeBuf[..];
    w2 := new MessageWriter(c, second);
    var e := WriteBeside(w1, w2, b);
    assert [] + b == b;
    OverlayIs(buf, c.writeBuf[..], a, b);
  }

  lemma OverlayTwice(a: bytes, b: bytes, s: bytes)
    requires |s| == |b|
    ensures Overlay(Overlay(a, b), s) == Overlay(a, s)
  {
  }

  /**
   The first writer ends first: its message goes out as the second one's bytes, with
   what is left of its own behind them; as written exactly if these are the same.
   */
  method FirstEnds(c: Conn, first: byte, second: byte, a: bytes, b: bytes) returns (e: Option<WriteError>, ghost f: Frame)
    requires c.Valid() && IsData(first) && IsData(second)
    requires MAX_HEADER < c.writeBuf.Length && c.writeBuf.Length + |a| + |b| < INT64_LIMIT
    requires MAX_HEADER + |a| <= c.writeBuf.Length && MAX_HEADER + |b| <= c.writeBuf.Length
    modifies c, c.writeBuf
    ensures c.Valid() && c.wire == old(c.wire) + (if e == None then [f] else [])
    ensures Sends(c.isServer, true, first, Overlay(a, b), f)
    ensures f.payload == a <==> forall i :: 0 <= i < |a| && i < |b| ==> b[i] == a[i]
  {
    hide Woven, SendsMessage, EncodeAll, Encode, Overlay;
    var w1, w2 := OpenTwo(c, first, second, a, b);
    e, f := w1.Close();
    OverlaySame(a, b);
  }

  /** Close of the second writer, when the first has what it wrote over by the second. */
  method EndSecond(w1: MessageWriter, w2: MessageWriter, ghost a: bytes) returns (e: Option<WriteError>, ghost f: Frame)
    requires Beside(w1, w2) && IsData(w2.messageType) && w2.c.writeBuf.Length < INT64_LIMIT
    requires w1.View() == Pending([], Overlay(a, w2.View().buffered)) && w2.frameType == w2.messageType
    modifies w2, w2.c, w2.c.writeBuf
    ensures w1.Usable() && (e == None || e == Some(SocketFailed))
    ensures Sends(w2.c.isServer, true, w2.messageType, old(w2.View()).buffered, f)
    ensures w2.c.wire == old(w2.c.wire) + if e == None then [f] else []
    ensures w1.View() == Pending([], Overlay(a, Body(f)))
  {
    hide Woven, SendsMessage, EncodeAll, Encode, Overlay, Masked, AllWellFormed, Frame.WellFormed;
    ghost var buf, b := w2.c.writeBuf[..], w2.View().buffered;
    e, f := CloseBeside(w1, w2);
    OverlayIs(buf, w2.c.writeBuf[..], Overlay(a, b), Body(f));
    OverlayTwice(a, b, Body(f));
  }

  /**
   The second writer ends first, as one would expect of a NextWriter that has ended
   the first: both messages go out, the second as written, and the first with the
   second's bytes over its own, masked if this end is a client.
   */
  method SecondEnds(c: Conn, first: byte, second: byte, a: bytes, b: bytes)
      returns (e: Option<WriteError>, ghost f1: Frame, ghost f2: Frame)
    requires c.Valid() && IsData(first) && IsData(second)
    requires MAX_HEADER < c.writeBuf.Length && c.writeBuf.Length + |a| + |b| < INT64_LIMIT
    requires MAX_HEADER + |a| <= c.writeBuf.Length && MAX_HEADER + |b| <= c.writeBuf.Length
    modifies c, c.writeBuf
    ensures c.Valid() && (e == None ==> c.wire == old(c.wire) + [f2, f1])
    ensures Sends(c.isServer, true, second, b, f2)
    ensures e == None ==> Sends(c.isServer, true, first, Overlay(a, Body(f2)), f1)
    ensures e == None ==>
      (f1.payload == a <==> forall i :: 0 <= i < |a| && i < |b| ==> Body(f2)[i] == a[i])
  {
    hide Woven, SendsMessage, EncodeAll, Encode, Overlay, Masked, Payloads, AllWellFormed;
    hide Frame.WellFormed;
    var w1, w2 := OpenTwo(c, first, second, a, b);
    e, f2 := EndSecond(w1, w2, a);
    f1 := f2;
    if e == None {
      e, f1 := w1.Close();
      OverlaySame(a, Body(f2));
    }
  }
}
