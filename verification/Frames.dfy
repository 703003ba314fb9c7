/**
 WebSocket frames (section 5.2 of RFC 6455) and the one-shot encoders of
 ws/conn.go: prepareFrame, WriteMessageDirect and WriteControl.
 */
module Frames {
  import opened Bytes
  import opened Masking
  import opened Options
  import opened Sequences

  const FINAL_BIT: byte := 128
  const MASK_BIT: byte := 128

  const CONTINUATION: byte := 0
  const TEXT: byte := 1
  const BINARY: byte := 2
  const CLOSE: byte := 8
  const PING: byte := 9
  const PONG: byte := 10

  const MAX_HEADER: nat := 14
  const MAX_CONTROL_PAYLOAD: nat := 125

  predicate IsControl(frameType: int) {
    frameType == CLOSE || frameType == PING || frameType == PONG
  }

  predicate IsData(frameType: int) {
    frameType == TEXT || frameType == BINARY
  }

  /** The three ways section 5.2 gives to write a payload length. */
  datatype LengthForm = Short | Medium | Long

  /** A frame of the protocol: its header fields, and its payload in clear. */
  datatype Frame = Frame(fin: bool, rsv: nat, opcode: byte, mask: Option<Key>, form: LengthForm, payload: bytes)
  {
    predicate WellFormed() {
      && rsv < 8
      && opcode < 16
      && match form {
        case Short => |payload| <= 125
        case Medium => |payload| < 0x1_0000
        case Long => |payload| < UINT64_LIMIT
      }
    }

    predicate Control() {
      IsControl(opcode)
    }
  }

  function LengthSize(form: LengthForm): nat {
    match form
    case Short => 0
    case Medium => 2
    case Long => 8
  }

  function Byte0(f: Frame): byte
    requires f.WellFormed()
  {
    (if f.fin then FINAL_BIT else 0) + 16 * f.rsv + f.opcode
  }

  function LengthCode(f: Frame): byte
    requires f.WellFormed()
  {
    match f.form
    case Short => |f.payload|
    case Medium => 126
    case Long => 127
  }

  function Byte1(f: Frame): byte
    requires f.WellFormed()
  {
    (if f.mask.Some? then MASK_BIT else 0) + LengthCode(f)
  }

  function KeyBytes(f: Frame): bytes {
    match f.mask
    case None => []
    case Some(key) => key
  }

  /** The payload as it travels. */
  function Body(f: Frame): (s: bytes)
    ensures |s| == |f.payload|
  {
    match f.mask
    case None => f.payload
    case Some(key) => Masked(key, 0, f.payload)
  }

  function Header(f: Frame): (s: bytes)
    requires f.WellFormed()
    ensures |s| == 2 + LengthSize(f.form)
  {
    [Byte0(f), Byte1(f)] + BigEndian(LengthSize(f.form), |f.payload|)
  }

  /** The bytes of a frame on the wire. */
  function Encode(f: Frame): (s: bytes)
    requires f.WellFormed()
    ensures |s| >= 2
  {
    Header(f) + KeyBytes(f) + Body(f)
  }

  predicate AllWellFormed(fs: seq<Frame>) {
    forall i :: 0 <= i < |fs| ==> fs[i].WellFormed()
  }

  function EncodeAll(fs: seq<Frame>): bytes
    requires AllWellFormed(fs)
  {
    if fs == [] then [] else Encode(fs[0]) + EncodeAll(fs[1..])
  }

  lemma {:induction false} EncodeAllAppend(fs: seq<Frame>, gs: seq<Frame>)
    requires AllWellFormed(fs) && AllWellFormed(gs)
    ensures AllWellFormed(fs + gs)
    ensures EncodeAll(fs + gs) == EncodeAll(fs) + EncodeAll(gs)
  {
    if fs == [] {
      assert fs + gs == gs;
    } else {
      assert (fs + gs)[1..] == fs[1..] + gs;
      EncodeAllAppend(fs[1..], gs);
      Assoc(Encode(fs[0]), EncodeAll(fs[1..]), EncodeAll(gs));
    }
  }

  /** The shortest form for a length: what every encoder of the repository uses. */
  function ShortestForm(length: nat): LengthForm {
    if length >= 65536 then Long else if length > 125 then Medium else Short
  }

  /** The frame an endpoint sends: masked exactly when the endpoint is a client. */
  function SentFrame(isServer: bool, fin: bool, opcode: byte, key: Key, payload: bytes): (f: Frame)
    requires opcode < 16 && |payload| < INT64_LIMIT
    ensures f.WellFormed()
  {
    Frame(fin, 0, opcode, if isServer then None else Some(key), ShortestForm(|payload|), payload)
  }

  /** b | bit, for bit a power of two. */
  function SetBit(b: byte, bit: byte): (r: byte)
    requires bit == 128 || bit == 64
  {
    if HasBit(b, bit) then b else b + bit
  }

  /** `copy(a[off:], s)` */
  method CopyAt(a: array<byte>, off: nat, s: bytes)
    requires off + |s| <= a.Length
    modifies a
    ensures forall j :: 0 <= j < off || off + |s| <= j < a.Length ==> a[j] == old(a[j])
    ensures a[off..off + |s|] == s
  {
    forall j | off <= j < off + |s| {
      a[j] := s[j - off];
    }
  }

  function HeaderSize(isServer: bool, length: nat): nat {
    2 + LengthSize(ShortestForm(length)) + if isServer then 0 else 4
  }

  /** The seven-bit length field of the shortest form. */
  function LengthByte(length: nat): byte {
    if length >= 65536 then 127 else if length > 125 then 126 else length
  }

  /** The first two bytes and the extended length, written at frame[at]. */
  method PutHeader(isServer: bool, frame: array<byte>, at: nat, b0: byte, length: nat) returns (size: nat)
    requires length < INT64_LIMIT
    requires at + 2 + LengthSize(ShortestForm(length)) <= frame.Length
    modifies frame
    ensures size == 2 + LengthSize(ShortestForm(length))
    ensures forall j :: 0 <= j < at || at + size <= j < frame.Length ==> frame[j] == old(frame[j])
    ensures frame[at..at + size] == WireHeader(isServer, b0, length)
  {
    var b1 := if isServer then 0 else MASK_BIT;
    frame[at] := b0;
    if length >= 65536 {
      frame[at + 1] := b1 + 127;
      CopyAt(frame, at + 2, BigEndian(8, length));
      size := 10;
    } else if length > 125 {
      frame[at + 1] := b1 + 126;
      CopyAt(frame, at + 2, BigEndian(2, length));
      size := 4;
    } else {
      frame[at + 1] := b1 + length;
      size := 2;
    }
  }

  /** `copy(a[off:], s)` followed by masking what was copied. */
  method CopyMasked(a: array<byte>, off: nat, key: Key, s: bytes)
    requires off + |s| <= a.Length
    modifies a
    ensures forall j :: 0 <= j < off || off + |s| <= j < a.Length ==> a[j] == old(a[j])
    ensures a[off..off + |s|] == Masked(key, 0, s)
  {
    CopyAt(a, off, s);
    ghost var before := a[..];
    var _ := MaskByByte(key, 0, a, off, off + |s|);
    MaskedIs(key, 0, before[off..off + |s|], a[off..off + |s|]);
  }

  function WireKey(isServer: bool, key: Key): bytes {
    if isServer then [] else key
  }

  function WireBody(isServer: bool, key: Key, payload: bytes): (s: bytes)
    ensures |s| == |payload|
  {
    if isServer then payload else Masked(key, 0, payload)
  }

  function WireHeader(isServer: bool, b0: byte, length: nat): (h: bytes)
    requires length < INT64_LIMIT
    ensures |h| == 2 + LengthSize(ShortestForm(length))
  {
    [b0, (if isServer then 0 else MASK_BIT) + LengthByte(length)] + BigEndian(LengthSize(ShortestForm(length)), length)
  }

  /** What an endpoint puts on the wire for one frame, part by part. */
  lemma SentBytes(isServer: bool, fin: bool, opcode: byte, key: Key, payload: bytes)
    requires opcode < 16 && |payload| < INT64_LIMIT
    ensures Encode(SentFrame(isServer, fin, opcode, key, payload))
         == WireHeader(isServer, (if fin then FINAL_BIT else 0) + opcode, |payload|)
            + (WireKey(isServer, key) + WireBody(isServer, key, payload))
  {
    var f := SentFrame(isServer, fin, opcode, key, payload);
    assert Byte1(f) == (if isServer then 0 else MASK_BIT) + LengthByte(|payload|);
    assert Header(f) == WireHeader(isServer, (if fin then FINAL_BIT else 0) + opcode, |payload|);
    assert KeyBytes(f) == WireKey(isServer, key);
    assert Body(f) == WireBody(isServer, key, payload);
    hide *;
    Assoc(Header(f), KeyBytes(f), Body(f));
    EncodeParts(f);
  }

  lemma EncodeParts(f: Frame)
    requires f.WellFormed()
    ensures Encode(f) == Header(f) + KeyBytes(f) + Body(f)
  {
  }

  /** The mask key, when there is one, and the payload, written from frame[at] on. */
  method PutBody(isServer: bool, key: Key, data: bytes, frame: array<byte>, at: nat) returns (end: nat)
    requires at + |WireKey(isServer, key)| + |data| <= frame.Length
    modifies frame
    ensures end == at + |WireKey(isServer, key)| + |data|
    ensures frame[..at] == old(frame[..at])
    ensures frame[at..end] == WireKey(isServer, key) + WireBody(isServer, key, data)
  {
    if isServer {
      CopyAt(frame, at, data);
      end := at + |data|;
    } else {
      CopyAt(frame, at, key);
      ghost var k := frame[at..at + 4];
      CopyMasked(frame, at + 4, key, data);
      end := at + 4 + |data|;
      assert frame[at..at + 4] == k;
      assert frame[at..end] == frame[at..at + 4] + frame[at + 4..end];
    }
  }

  /**
   The common part of prepareFrame and WriteMessageDirect: a complete final
   frame built front to back in `frame`, whatever that buffer held before.
   */
  method BuildFrame(isServer: bool, messageType: nat, key: Key, data: bytes, frame: array<byte>)
    requires |data| < INT64_LIMIT
    requires HeaderSize(isServer, |data|) + |data| <= frame.Length
    modifies frame
    ensures messageType < 16 ==>
      frame[..HeaderSize(isServer, |data|) + |data|] == Encode(SentFrame(isServer, true, messageType, key, data))
  {
    var b0 := SetBit(messageType % 256, FINAL_BIT);
    var at := PutHeader(isServer, frame, 0, b0, |data|);
    var end := PutBody(isServer, key, data, frame, at);
    if messageType < 16 {
      Assemble(isServer, true, messageType, key, data, frame[..], 0, at, end);
    }
  }

  /** A header followed by its key and body is a frame. */
  lemma Assemble(isServer: bool, fin: bool, opcode: byte, key: Key, payload: bytes, s: bytes, lo: nat, at: nat, end: nat)
    requires opcode < 16 && |payload| < INT64_LIMIT
    requires lo <= at <= end <= |s|
    requires s[lo..at] == WireHeader(isServer, (if fin then FINAL_BIT else 0) + opcode, |payload|)
    requires s[at..end] == WireKey(isServer, key) + WireBody(isServer, key, payload)
    ensures s[lo..end] == Encode(SentFrame(isServer, fin, opcode, key, payload))
  {
    SplitAt(s, lo, at, end);
    SentBytes(isServer, fin, opcode, key, payload);
  }

  /** prepareFrame: the frame in a buffer of its own. */
  method PrepareFrame(isServer: bool, messageType: nat, key: Key, data: bytes) returns (frame: array<byte>)
    requires |data| < INT64_LIMIT
    ensures messageType < 16 ==> frame[..] == Encode(SentFrame(isServer, true, messageType, key, data))
  {
    frame := new byte[HeaderSize(isServer, |data|) + |data|];
    BuildFrame(isServer, messageType, key, data, frame);
    assert frame[..] == frame[..HeaderSize(isServer, |data|) + |data|];
  }
}
