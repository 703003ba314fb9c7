/** The bytes of a frame, one by one, as the figure of section 5.2 of RFC 6455 lays them out; and the examples of section 5.7. */
module FrameLayout {
  import opened Bytes
  import opened Frames
  import opened Masking
  import opened Options

  /** Bit k of a number. */
  function Bit(n: nat, k: nat): nat {
    n / Pow2(k) % 2
  }

  lemma BitOfHalf(n: nat, k: nat)
    requires k > 0
    ensures Bit(n, k) == Bit(n / 2, k - 1)
  {
    var p := Pow2(k - 1);
    DivTwice(n, 2, p);
  }

  lemma DivTwice(n: nat, a: nat, b: nat)
    requires a > 0 && b > 0
    ensures a * b > 0 && n / (a * b) == n / a / b
  {
    var q, r := n / a, n % a;
    var q', r' := q / b, q % b;
    assert n == a * q + r && q == b * q' + r';
    assert a * b * q' + (a * r' + r) == n by {
      assert a * q == a * (b * q') + a * r';
      assert a * (b * q') == a * b * q';
    }
    Within(a, b, r, r');
    assert a * b > 0 by {
      AtLeast(a, b);
    }
    ModUnique(n, a * b, q', a * r' + r);
  }

  lemma Within(a: nat, b: nat, r: nat, r': nat)
    requires r < a && r' < b
    ensures a * r' + r < a * b
  {
    assert a * b == a * r' + a * (b - r');
    AtLeast(a, b - r');
  }

  /** Exclusive-or, bit by bit. */
  lemma {:induction false} XorBits(a: nat, b: nat, k: nat)
    ensures Bit(Xor(a, b), k) == 1 <==> Bit(a, k) != Bit(b, k)
  {
    hide Xor;
    XorHalf(a, b);
    if k > 0 {
      hide Bit;
      BitOfHalf(a, k);
      BitOfHalf(b, k);
      BitOfHalf(Xor(a, b), k);
      XorBits(a / 2, b / 2, k - 1);
    }
  }

  /** Byte i of a field of `width` bytes, the most significant first. */
  lemma {:induction false} BigEndianAt(width: nat, n: nat, i: nat)
    requires i < width
    ensures BigEndian(width, n)[i] == n / Pow256(width - 1 - i) % 256
  {
    if i < width - 1 {
      BigEndianAt(width - 1, n / 256, i);
      DivTwice(n, 256, Pow256(width - 2 - i));
    }
  }

  /** Where the mask key of a frame with this payload length stands. */
  function KeyAt(n: nat): nat {
    if n <= 125 then 2 else if n <= 65535 then 4 else 10
  }

  /** The parts of a sent frame, in their places. */
  lemma PartsInPlace(isServer: bool, fin: bool, opcode: byte, key: Key, payload: bytes)
    requires opcode < 16 && |payload| < INT64_LIMIT
    ensures var e := Encode(SentFrame(isServer, fin, opcode, key, payload));
            var n, at := |payload|, KeyAt(|payload|);
            var start := at + if isServer then 0 else 4;
            && |e| == start + n
            && e[0] == opcode + (if fin then 128 else 0)
            && e[1] == (if n <= 125 then n else if n <= 65535 then 126 else 127) + (if isServer then 0 else 128)
            && e[2..at] == BigEndian(at - 2, n)
            && (!isServer ==> e[at..start] == key)
            && e[start..] == if isServer then payload else Masked(key, 0, payload)
  {
    hide Encode, Masked, BigEndian, SentFrame;
    SentBytes(isServer, fin, opcode, key, payload);
    var head := WireHeader(isServer, (if fin then FINAL_BIT else 0) + opcode, |payload|);
    var k, body := WireKey(isServer, key), WireBody(isServer, key, payload);
    var e := head + (k + body);
    assert |head| == KeyAt(|payload|) && |k| == (if isServer then 0 else 4);
    assert e[..|head|] == head && e[|head|..|head| + |k|] == k && e[|head| + |k|..] == body;
    assert e[2..|head|] == head[2..];
  }

  /**
   What an endpoint sends for one frame, byte by byte: the final bit and the opcode,
   the mask bit and the length in the shortest form, most significant byte first, the
   mask key, and the payload, of which a client inverts the bits that are set in the
   key byte at the place modulo four.
   */
  lemma SentLayout(isServer: bool, fin: bool, opcode: byte, key: Key, payload: bytes)
    requires opcode < 16 && |payload| < INT64_LIMIT
    ensures var e := Encode(SentFrame(isServer, fin, opcode, key, payload));
            var n, at := |payload|, KeyAt(|payload|);
            var start := at + if isServer then 0 else 4;
            && |e| == start + n
            && e[0] == opcode + (if fin then 128 else 0)
            && e[1] == (if n <= 125 then n else if n <= 65535 then 126 else 127) + (if isServer then 0 else 128)
            && (forall i :: 2 <= i < at ==> e[i] == n / Pow256(at - 1 - i) % 256)
            && (!isServer ==> e[at..start] == key)
            && forall i :: 0 <= i < n ==>
                 if isServer then e[start + i] == payload[i]
                 else forall k :: 0 <= k ==> (Bit(e[start + i], k) == 1 <==> Bit(payload[i], k) != Bit(key[i % 4], k))
  {
    hide Encode, Masked, BigEndian, SentFrame, Bit, Xor;
    PartsInPlace(isServer, fin, opcode, key, payload);
    var e := Encode(SentFrame(isServer, fin, opcode, key, payload));
    var n, at := |payload|, KeyAt(|payload|);
    var start := at + if isServer then 0 else 4;
    forall i | 2 <= i < at
      ensures e[i] == n / Pow256(at - 1 - i) % 256
    {
      BigEndianAt(at - 2, n, i - 2);
      assert e[i] == e[2..at][i - 2];
    }
    forall i | 0 <= i < n
      ensures e[start + i] == e[start..][i]
    {
    }
    if !isServer {
      forall i, k: nat | 0 <= i < n
        ensures Bit(e[start + i], k) == 1 <==> Bit(payload[i], k) != Bit(key[i % 4], k)
      {
        MaskedAt(key, 0, payload, i);
        XorBits(payload[i], key[i % 4], k);
      }
    }
  }

  /** A frame with a short payload. */
  lemma ShortFrame(isServer: bool, fin: bool, opcode: byte, key: Key, payload: bytes)
    requires opcode < 16 && |payload| <= 125
    ensures Encode(SentFrame(isServer, fin, opcode, key, payload))
         == [opcode + (if fin then 128 else 0), |payload| + (if isServer then 0 else 128)]
            + (if isServer then payload else key + Masked(key, 0, payload))
  {
    hide Encode, Masked, SentFrame, BigEndian;
    PartsInPlace(isServer, fin, opcode, key, payload);
    var e := Encode(SentFrame(isServer, fin, opcode, key, payload));
    assert e == e[..2] + e[2..];
    if !isServer {
      assert e[2..] == e[2..6] + e[6..];
    }
  }

  const HELLO: bytes := [0x48, 0x65, 0x6C, 0x6C, 0x6F]
  const KEY: Key := [0x37, 0xFA, 0x21, 0x3D]
  const MASKED_HELLO: bytes := [0x7F, 0x9F, 0x4D, 0x51, 0x58]

  lemma XorNibbles(a: nat, b: nat, high: nat, high': nat)
    requires a < 16 && b < 16
    ensures Xor(a + 16 * high, b + 16 * high') == Xor(a, b) + 16 * Xor(high, high')
  {
    hide Xor;
    XorSplit(4, a, b, high, high');
  }

  lemma OneBit(a: nat, b: nat, x: nat, y: nat)
    requires x < 2 && y < 2
    ensures Xor(2 * a + x, 2 * b + y) == 2 * Xor(a, b) + (x + y) % 2
  {
    hide Xor;
    XorHalf(2 * a + x, 2 * b + y);
    assert (2 * a + x) / 2 == a && (2 * b + y) / 2 == b;
  }

  /** The exclusive-or of two nibbles, given by their bits. */
  lemma Nibble(a: (nat, nat, nat, nat), b: (nat, nat, nat, nat))
    requires a.0 < 2 && a.1 < 2 && a.2 < 2 && a.3 < 2 && b.0 < 2 && b.1 < 2 && b.2 < 2 && b.3 < 2
    ensures Xor(8 * a.0 + 4 * a.1 + 2 * a.2 + a.3, 8 * b.0 + 4 * b.1 + 2 * b.2 + b.3)
         == 8 * ((a.0 + b.0) % 2) + 4 * ((a.1 + b.1) % 2) + 2 * ((a.2 + b.2) % 2) + (a.3 + b.3) % 2
  {
    hide Xor;
    XorZero();
    OneBit(0, 0, a.0, b.0);
    OneBit(a.0, b.0, a.1, b.1);
    OneBit(2 * a.0 + a.1, 2 * b.0 + b.1, a.2, b.2);
    OneBit(4 * a.0 + 2 * a.1 + a.2, 4 * b.0 + 2 * b.1 + b.2, a.3, b.3);
  }

  lemma Nibbles()
    ensures Xor(0x8, 0x7) == 0xF && Xor(0x5, 0xA) == 0xF && Xor(0xC, 0x1) == 0xD && Xor(0xC, 0xD) == 0x1
    ensures Xor(0xF, 0x7) == 0x8 && Xor(0x4, 0x3) == 0x7 && Xor(0x6, 0xF) == 0x9 && Xor(0x6, 0x2) == 0x4
    ensures Xor(0x6, 0x3) == 0x5
  {
    hide Xor;
    Nibble((1, 0, 0, 0), (0, 1, 1, 1));
    Nibble((0, 1, 0, 1), (1, 0, 1, 0));
    Nibble((1, 1, 0, 0), (0, 0, 0, 1));
    Nibble((1, 1, 0, 0), (1, 1, 0, 1));
    Nibble((1, 1, 1, 1), (0, 1, 1, 1));
    Nibble((0, 1, 0, 0), (0, 0, 1, 1));
    Nibble((0, 1, 1, 0), (1, 1, 1, 1));
    Nibble((0, 1, 1, 0), (0, 0, 1, 0));
    Nibble((0, 1, 1, 0), (0, 0, 1, 1));
  }

  lemma HelloMasked()
    ensures Masked(KEY, 0, HELLO) == MASKED_HELLO
  {
    hide Masked;
    hide Xor;
    Nibbles();
    XorNibbles(0x8, 0x7, 0x4, 0x3);
    XorNibbles(0x5, 0xA, 0x6, 0xF);
    XorNibbles(0xC, 0x1, 0x6, 0x2);
    XorNibbles(0xC, 0xD, 0x6, 0x3);
    XorNibbles(0xF, 0x7, 0x6, 0x3);
    MaskedIs(KEY, 0, HELLO, MASKED_HELLO);
  }

  /** The examples of section 5.7: a text whole and in two fragments, masked and not, a ping and the pong that answers it. */
  lemma Examples()
    ensures Encode(SentFrame(true, true, TEXT, KEY, HELLO)) == [0x81, 0x05] + HELLO
    ensures Encode(SentFrame(false, true, TEXT, KEY, HELLO)) == [0x81, 0x85] + (KEY + MASKED_HELLO)
    ensures Encode(SentFrame(true, false, TEXT, KEY, HELLO[..3])) == [0x01, 0x03] + HELLO[..3]
    ensures Encode(SentFrame(true, true, CONTINUATION, KEY, HELLO[3..])) == [0x80, 0x02] + HELLO[3..]
    ensures Encode(SentFrame(true, true, PING, KEY, HELLO)) == [0x89, 0x05] + HELLO
    ensures Encode(SentFrame(false, true, PONG, KEY, HELLO)) == [0x8A, 0x85] + (KEY + MASKED_HELLO)
  {
    hide Encode, Masked, SentFrame;
    HelloMasked();
    ShortFrame(true, true, TEXT, KEY, HELLO);
    ShortFrame(false, true, TEXT, KEY, HELLO);
    ShortFrame(true, false, TEXT, KEY, HELLO[..3]);
    ShortFrame(true, true, CONTINUATION, KEY, HELLO[3..]);
    ShortFrame(true, true, PING, KEY, HELLO);
    ShortFrame(false, true, PONG, KEY, HELLO);
  }
}
