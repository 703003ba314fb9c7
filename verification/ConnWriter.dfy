/**
 The writing side of a connection: the one-frame paths WriteMessageDirect and
 WriteControl, and the buffered, fragmenting messageWriter.
 */
module ConnWriter {
  import opened Bytes
  import opened Masking
  import opened Frames
  import opened MessageWriting
  import opened Options
  import opened Sequences

  datatype WriteError = BadOpcode | InvalidControlFrame | CloseSent | WriteClosed | SocketFailed | ExtraInClientMode

  /** An io.Reader that yields these chunks, in parts when the caller has less room, then EOF. */
  class ByteSource {
    var chunks: seq<bytes>

    constructor (chunks: seq<bytes>)
      ensures this.chunks == chunks
    {
      this.chunks := chunks;
    }

    method Read(room: nat) returns (p: bytes, eof: bool)
      requires room > 0
      modifies this
      ensures eof <==> old(chunks) == []
      ensures eof ==> p == [] && chunks == []
      ensures !eof && |old(chunks)[0]| <= room ==> p == old(chunks)[0] && chunks == old(chunks)[1..]
      ensures !eof && |old(chunks)[0]| > room ==>
        p == old(chunks)[0][..room] && chunks == [old(chunks)[0][room..]] + old(chunks)[1..]
      ensures |p| <= room
    {
      eof := chunks == [];
      if eof {
        p := [];
      } else if |chunks[0]| <= room {
        p, chunks := chunks[0], chunks[1..];
      } else {
        p, chunks := chunks[0][..room], [chunks[0][room..]] + chunks[1..];
      }
    }
  }

  /** Whole frames so far; or whole frames and a part of one more; or bytes behind such a part. */
  datatype Stream = Whole | Cut(f: Frame) | Lost

  class Conn {
    const isServer: bool
    const writeBuf: array<byte>
    /** What the socket has taken. */
    var out: bytes
    var writeErr: Option<WriteError>
    /** The frames the socket has taken as a whole, and what they say of out. */
    ghost var wire: seq<Frame>
    ghost var stream: Stream

    ghost predicate Valid()
      reads this
    {
      && AllWellFormed(wire)
      && match stream
         case Whole => out == EncodeAll(wire)
         case Cut(f) => f.WellFormed() && EncodeAll(wire) <= out <= EncodeAll(wire) + Encode(f)
         case Lost => true
    }

    constructor (isServer: bool, bufferSize: nat)
      ensures this.isServer == isServer && fresh(writeBuf) && writeBuf.Length == bufferSize
      ensures Valid() && out == [] && writeErr == None && wire == [] && stream == Whole
    {
      this.isServer := isServer;
      this.writeBuf := new byte[bufferSize];
      out, writeErr := [], None;
      wire, stream := [], Whole;
    }

    /** The socket takes all of p, the frame f if that is one, or fails after a part of it. */
    method SocketWrite(p: bytes, ghost f: Option<Frame>) returns (err: Option<WriteError>)
      requires Valid()
      requires f.Some? ==> f.value.WellFormed() && p == Encode(f.value)
      modifies this`out, this`wire, this`stream
      ensures Valid()
      ensures err == None ==> out == old(out) + p
      ensures err != None ==> err == Some(SocketFailed) && old(out) <= out <= old(out) + p
      ensures wire == if err == None && f.Some? then old(wire) + [f.value] else old(wire)
      ensures stream == if f == None || old(stream) != Whole then Lost else if err == None then Whole else Cut(f.value)
    {
      hide Encode, EncodeAll;
      if f.Some? {
        EncodeOneMore(wire, f.value);
      }
      var fails: bool := *;
      if fails {
        var n: nat :| n <= |p|;
        out := out + p[..n];
        err := Some(SocketFailed);
      } else {
        out := out + p;
        err := None;
        wire := wire + if f.Some? then [f.value] else [];
      }
      stream := if f == None || stream != Whole then Lost else if err == None then Whole else Cut(f.value);
    }

    method WriteFatal(err: WriteError)
      modifies this`writeErr
      ensures writeErr == if old(writeErr) == None then Some(err) else old(writeErr)
    {
      if writeErr == None {
        writeErr := Some(err);
      }
    }

    /** newMaskKey: any four bytes. */
    method NewMaskKey() returns (key: Key) {
      var a: byte, b: byte, c: byte, d: byte := *, *, *, *;
      key := [a, b, c, d];
    }

    /** pooled is the buffer got from the pool, with whatever an earlier frame left in it. */
    method WriteMessageDirect(messageType: nat, data: bytes, pooled: array<byte>)
      returns (err: Option<WriteError>, ghost key: Key)
      requires Valid() && |data| < INT64_LIMIT
      modifies this`out, this`wire, this`stream, pooled
      ensures Valid()
      ensures old(writeErr) != None ==> err == old(writeErr) && unchanged(this)
      ensures old(writeErr) == None && messageType < 16 ==>
        var f := SentFrame(isServer, true, messageType, key, data);
        if err == None then
          out == old(out) + Encode(f) && wire == old(wire) + [f] && stream == if old(stream) == Whole then Whole else Lost
        else
          && old(out) <= out <= old(out) + Encode(f) && wire == old(wire)
          && stream == if old(stream) == Whole then Cut(f) else Lost
      ensures err != None && old(writeErr) == None ==> err == Some(SocketFailed)
    {
      if writeErr != None {
        return writeErr, [0, 0, 0, 0];
      }
      var k := NewMaskKey();
      key := k;
      var totalSize := HeaderSize(isServer, |data|) + |data|;
      var frame: array<byte>;
      if totalSize <= 4096 && totalSize <= pooled.Length {
        frame := pooled;
      } else {
        frame := new byte[totalSize];
      }
      BuildFrame(isServer, messageType, k, data, frame);
      ghost var f := if messageType < 16 then Some(SentFrame(isServer, true, messageType, key, data)) else None;
      err := SocketWrite(frame[..totalSize], f);
    }

    /**
     The first half of flushFrame: the header, built backwards so that it ends
     where the payload starts, and the payload masked in place for a client.
     */
    method StageFrame(final: bool, frameType: byte, pos: nat, extra: bytes) returns (framePos: nat, ghost key: Key)
      requires MAX_HEADER <= pos <= writeBuf.Length && frameType < 16
      requires writeBuf.Length + |extra| < INT64_LIMIT
      modifies writeBuf
      ensures framePos <= pos
      ensures writeBuf[MAX_HEADER..pos] == WireBody(isServer, key, old(writeBuf[MAX_HEADER..pos]))
      ensures writeBuf[pos..] == old(writeBuf[pos..])
      ensures isServer || extra == [] ==>
        writeBuf[framePos..pos] + extra
          == Encode(SentFrame(isServer, final, frameType, key, old(writeBuf[MAX_HEADER..pos]) + extra))
    {
      ghost var buffered := writeBuf[MAX_HEADER..pos];
      var length := pos - MAX_HEADER + |extra|;
      var b0 := frameType + if final then FINAL_BIT else 0;
      framePos := if isServer then 4 else 0;
      if length >= 65536 {
      } else if length > 125 {
        framePos := framePos + 6;
      } else {
        framePos := framePos + 8;
      }
      var size := PutHeader(isServer, writeBuf, framePos, b0, length);
      ghost var header := writeBuf[framePos..framePos + size];
      assert writeBuf[MAX_HEADER..pos] == buffered;
      key := [0, 0, 0, 0];
      if !isServer {
        var k := NewMaskKey();
        key := k;
        MaskStaged(k, framePos + size, pos);
        assert writeBuf[framePos..framePos + size] == header;
      }
      if isServer || extra == [] {
        Staged(isServer, final, frameType, key, buffered, extra, writeBuf[..], framePos, framePos + size, pos);
      }
    }

    /** The mask key in front of the payload, and the payload masked. */
    method MaskStaged(key: Key, at: nat, pos: nat)
      requires at == MAX_HEADER - 4 && MAX_HEADER <= pos <= writeBuf.Length
      modifies writeBuf
      ensures writeBuf[..at] == old(writeBuf[..at]) && writeBuf[pos..] == old(writeBuf[pos..])
      ensures writeBuf[at..pos] == key + Masked(key, 0, old(writeBuf[MAX_HEADER..pos]))
      ensures writeBuf[MAX_HEADER..pos] == Masked(key, 0, old(writeBuf[MAX_HEADER..pos]))
    {
      ghost var buffered := writeBuf[MAX_HEADER..pos];
      CopyAt(writeBuf, at, key);
      assert writeBuf[MAX_HEADER..pos] == buffered;
      ghost var k := writeBuf[at..MAX_HEADER];
      ghost var before := writeBuf[..];
      var _ := MaskByByte(key, 0, writeBuf, MAX_HEADER, pos);
      MaskedIs(key, 0, before[MAX_HEADER..pos], writeBuf[MAX_HEADER..pos]);
      assert writeBuf[at..MAX_HEADER] == k;
      SplitAt(writeBuf[..], at, MAX_HEADER, pos);
    }

    method WriteControl(messageType: nat, data: bytes) returns (err: Option<WriteError>, ghost key: Key)
      requires Valid()
      modifies this`out, this`writeErr, this`wire, this`stream
      ensures Valid()
      ensures !IsControl(messageType) ==> err == Some(BadOpcode) && unchanged(this)
      ensures IsControl(messageType) && |data| > MAX_CONTROL_PAYLOAD ==> err == Some(InvalidControlFrame) && unchanged(this)
      ensures IsControl(messageType) && |data| <= MAX_CONTROL_PAYLOAD ==>
        var f := SentFrame(isServer, true, messageType, key, data);
        if err == None then
          out == old(out) + Encode(f) && wire == old(wire) + [f] && stream == if old(stream) == Whole then Whole else Lost
        else
          && err == Some(SocketFailed) && old(out) <= out <= old(out) + Encode(f) && wire == old(wire)
          && stream == if old(stream) == Whole then Cut(f) else Lost
      ensures err in {None, Some(BadOpcode), Some(InvalidControlFrame), Some(SocketFailed)}
      ensures writeErr == if old(writeErr) != None then old(writeErr)
                          else if err == Some(SocketFailed) then err
                          else if err == None && messageType == CLOSE then Some(CloseSent)
                          else None
    {
      hide Encode, EncodeAll, SentFrame;
      key := [0, 0, 0, 0];
      if !IsControl(messageType) {
        return Some(BadOpcode), key;
      }
      if |data| > MAX_CONTROL_PAYLOAD {
        return Some(InvalidControlFrame), key;
      }
      var b0 := SetBit(messageType, FINAL_BIT);
      var b1 := |data|;
      if !isServer {
        b1 := SetBit(b1, MASK_BIT);
      }
      var buf: bytes;
      if isServer {
        buf := [b0, b1] + data;
      } else {
        var k := NewMaskKey();
        key := k;
        var payload := new byte[|data|](i requires 0 <= i < |data| => data[i]);
        assert payload[0..|data|] == data;
        var _ := MaskByByte(k, 0, payload, 0, |data|);
        MaskedIs(k, 0, data, payload[..]);
        buf := [b0, b1] + k + payload[..];
      }
      ControlBytes(isServer, messageType, key, data, b0, b1, buf);
      err := SocketWrite(buf, Some(SentFrame(isServer, true, messageType, key, data)));
      if err != None {
        WriteFatal(SocketFailed);
        return;
      }
      if messageType == CLOSE {
        WriteFatal(CloseSent);
      }
    }
  }

  lemma ControlBytes(isServer: bool, messageType: byte, key: Key, data: bytes, b0: byte, b1: byte, buf: bytes)
    requires messageType < 16 && |data| <= MAX_CONTROL_PAYLOAD
    requires b0 == FINAL_BIT + messageType && b1 == |data| + if isServer then 0 else MASK_BIT
    requires buf == [b0, b1] + WireKey(isServer, key) + WireBody(isServer, key, data)
    ensures buf == Encode(SentFrame(isServer, true, messageType, key, data))
  {
    SentBytes(isServer, true, messageType, key, data);
    assert WireHeader(isServer, b0, |data|) == [b0, b1];
    Assoc([b0, b1], WireKey(isServer, key), WireBody(isServer, key, data));
  }

  lemma Staged(isServer: bool, final: bool, frameType: byte, key: Key, buffered: bytes, extra: bytes,
               s: bytes, lo: nat, at: nat, end: nat)
    requires frameType < 16 && |buffered| + |extra| < INT64_LIMIT && lo <= at <= end <= |s|
    requires isServer || extra == []
    requires s[lo..at] == WireHeader(isServer, (if final then FINAL_BIT else 0) + frameType, |buffered| + |extra|)
    requires s[at..end] == WireKey(isServer, key) + WireBody(isServer, key, buffered)
    ensures s[lo..end] + extra == Encode(SentFrame(isServer, final, frameType, key, buffered + extra))
  {
    BodyWithExtra(isServer, key, buffered, extra);
    SentBytes(isServer, final, frameType, key, buffered + extra);
    SplitAt(s, lo, at, end);
    hide *;
    var k, body := WireKey(isServer, key), WireBody(isServer, key, buffered);
    Assoc(s[lo..at], s[at..end], extra);
    Assoc(k, body, extra);
  }

  lemma BodyWithExtra(isServer: bool, key: Key, buffered: bytes, extra: bytes)
    requires isServer || extra == []
    ensures WireBody(isServer, key, buffered + extra) == WireBody(isServer, key, buffered) + extra
  {
    if !isServer {
      assert buffered + extra == buffered;
    }
  }

  lemma EncodeOneMore(fs: seq<Frame>, f: Frame)
    requires f.WellFormed() && AllWellFormed(fs)
    ensures AllWellFormed(fs + [f])
    ensures EncodeAll(fs) + Encode(f) == EncodeAll(fs + [f])
  {
    EncodeAllAppend(fs, [f]);
    assert EncodeAll([f]) == Encode(f) + EncodeAll([]) == Encode(f);
  }

  /** One more frame of a message that is not over. */
  lemma OneMore(isServer: bool, messageType: byte, fs: seq<Frame>, final: bool, f: Frame, payload: bytes)
    requires SendsMessage(isServer, messageType, Payloads(fs), false, fs)
    requires Sends(isServer, final, if fs == [] then messageType else CONTINUATION, payload, f)
    ensures Payloads(fs + [f]) == Payloads(fs) + [payload]
    ensures SendsMessage(isServer, messageType, Payloads(fs) + [payload], final, fs + [f])
  {
    assert Payloads(fs + [f]) == Payloads(fs) + [payload];
  }

  /** Of the frames on the wire, those and only those are new that are new among the frames of the message. */
  predicate Extends(wire: seq<Frame>, frames: seq<Frame>, wire': seq<Frame>, frames': seq<Frame>) {
    frames <= frames' && wire' == wire + frames'[|frames|..]
  }

  lemma ExtendsSame(wire: seq<Frame>, frames: seq<Frame>)
    ensures Extends(wire, frames, wire, frames)
  {
  }

  lemma ExtendsByOne(wire: seq<Frame>, frames: seq<Frame>, f: Frame)
    ensures Extends(wire, frames, wire + [f], frames + [f])
  {
  }

  lemma ExtendsOn(wire: seq<Frame>, frames: seq<Frame>, wire1: seq<Frame>, frames1: seq<Frame>,
                  wire2: seq<Frame>, frames2: seq<Frame>)
    requires Extends(wire, frames, wire1, frames1) && Extends(wire1, frames1, wire2, frames2)
    ensures Extends(wire, frames, wire2, frames2)
  {
    assert frames2[|frames|..] == frames1[|frames|..] + frames2[|frames1|..];
  }

  /** The buffered, fragmenting writer of one message. */
  class MessageWriter {
    const c: Conn
    const messageType: byte
    var pos: nat
    var frameType: byte
    var err: Option<WriteError>
    /** The frames sent for this message, and where the Conn was when the writer was opened. */
    ghost var frames: seq<Frame>
    ghost const start: nat

    /** Whatever other writers do on the Conn. A control message is one frame. */
    ghost predicate Usable()
      reads this, c
    {
      && c.Valid() && start <= |c.wire|
      && MAX_HEADER <= pos <= c.writeBuf.Length && MAX_HEADER < c.writeBuf.Length
      && (IsControl(messageType) || IsData(messageType))
      && frameType < 16
      && (err == None ==>
          && frameType == (if frames == [] then messageType else CONTINUATION)
          && (IsControl(messageType) ==> frames == [])
          && SendsMessage(c.isServer, messageType, Payloads(frames), false, frames))
    }

    /** The frames of a data message are the data frames on the Conn since its start: no other writer has sent any. */
    ghost predicate Valid()
      reads this, c
    {
      Usable() && (IsData(messageType) ==> Woven(c.isServer, c.wire[start..], frames))
    }

    ghost function View(): Pending
      requires Usable()
      reads this, c, c.writeBuf
    {
      Pending(Payloads(frames), c.writeBuf[MAX_HEADER..pos])
    }

    /** NextWriter, for a type it accepts. */
    constructor (c: Conn, messageType: byte)
      requires c.Valid() && (IsControl(messageType) || IsData(messageType))
      requires MAX_HEADER < c.writeBuf.Length
      ensures Valid() && this.c == c && this.messageType == messageType && err == None && start == |c.wire|
      ensures View() == Pending([], [])
    {
      this.c, this.messageType := c, messageType;
      pos, frameType, err := MAX_HEADER, messageType, None;
      frames, start := [], |c.wire|;
    }

    /** The message is over, with this error for every later call. */
    method EndMessage(e: WriteError)
      modifies this`err
      ensures err == if old(err) == None then Some(e) else old(err)
    {
      if err == None {
        err := Some(e);
      }
    }

    /** The second half of flushFrame: the staged bytes, which with `extra` are the frame f, are sent. */
    method SendStaged(framePos: nat, final: bool, extra: bytes, ghost f: Frame) returns (e: Option<WriteError>)
      requires Usable() && err == None && framePos <= pos
      requires Sends(c.isServer, final, frameType, f.payload, f) && f.WellFormed()
      requires c.writeBuf[framePos..pos] + extra == Encode(f)
      requires IsControl(messageType) ==> final
      modifies this, c
      ensures Usable() && (old(Valid()) ==> Valid())
      ensures e == None || e == Some(SocketFailed)
      ensures err == if e != None then e else if final then Some(WriteClosed) else None
      ensures if e == None then c.out == old(c.out) + Encode(f) else old(c.out) <= c.out <= old(c.out) + Encode(f)
      ensures c.wire == old(c.wire) + (if e == None then [f] else [])
      ensures c.stream == if old(c.stream) != Whole then Lost else if e == None then Whole else Cut(f)
      ensures frames == old(frames) + (if e == None then [f] else [])
      ensures e == None && !final ==> pos == MAX_HEADER
      ensures e == None ==>
        && Payloads(frames) == old(Payloads(frames)) + [f.payload]
        && SendsMessage(c.isServer, messageType, Payloads(frames), final, frames)
    {
      hide Encode, EncodeAll, Woven, SendsMessage, Payloads;
      OneMore(c.isServer, messageType, frames, final, f, f.payload);
      if IsData(messageType) && Woven(c.isServer, c.wire[start..], frames) {
        WovenAppend(c.isServer, c.wire, start, frames, f);
      }
      e := c.SocketWrite(c.writeBuf[framePos..pos] + extra, Some(f));
      if e != None {
        EndMessage(SocketFailed);
        return;
      }
      frames := frames + [f];
      if final {
        EndMessage(WriteClosed);
        return;
      }
      pos := MAX_HEADER;
      frameType := CONTINUATION;
    }

    /**
     Sends the buffered bytes and `extra` as one frame, its header built
     backwards in front of the buffered bytes, which a client masks where they are.
     */
    method FlushFrame(final: bool, extra: bytes) returns (e: Option<WriteError>, ghost f: Frame)
      requires Usable() && err == None
      requires c.writeBuf.Length + |extra| < INT64_LIMIT
      modifies this, c, c.writeBuf
      ensures Usable() && (old(Valid()) ==> Valid())
      ensures e != None ==> err == e
      ensures e == None ==> err == if final then Some(WriteClosed) else None
      ensures RefusedControl(old(frameType), final, old(View()).buffered + extra) ==>
        e == Some(InvalidControlFrame) && unchanged(c)
      ensures e == Some(InvalidControlFrame) ==> RefusedControl(old(frameType), final, old(View()).buffered + extra)
      ensures e == Some(ExtraInClientMode) ==> !c.isServer && extra != [] && unchanged(c`out, c`wire, c`stream)
      ensures e in {None, Some(InvalidControlFrame), Some(ExtraInClientMode), Some(SocketFailed)}
      ensures e in {None, Some(SocketFailed)} ==>
        && Sends(c.isServer, final, old(frameType), old(View()).buffered + extra, f) && f.WellFormed()
        && (if e == None then c.out == old(c.out) + Encode(f) else old(c.out) <= c.out <= old(c.out) + Encode(f))
        && c.wire == old(c.wire) + (if e == None then [f] else [])
        && (c.stream == if old(c.stream) != Whole then Lost else if e == None then Whole else Cut(f))
        && c.writeBuf[old(pos)..] == old(c.writeBuf[pos..])
        && c.writeBuf[MAX_HEADER..old(pos)]
             == (match f.mask case None => old(View()).buffered case Some(k) => Masked(k, 0, old(View()).buffered))
      ensures frames == old(frames) + (if e == None then [f] else [])
      ensures e == None && !final ==> View() == Pending(old(View()).sent + [old(View()).buffered + extra], [])
      ensures e == None && final ==>
        SendsMessage(c.isServer, messageType, old(View()).sent + [old(View()).buffered + extra], true, frames)
    {
      hide Encode, EncodeAll, Woven, SendsMessage, Payloads;
      var length := pos - MAX_HEADER + |extra|;
      ghost var payload := c.writeBuf[MAX_HEADER..pos] + extra;
      f := SentFrame(c.isServer, final, frameType, [0, 0, 0, 0], payload);
      if IsControl(frameType) && (!final || length > MAX_CONTROL_PAYLOAD) {
        EndMessage(InvalidControlFrame);
        return err, f;
      }
      var framePos, key := c.StageFrame(final, frameType, pos, extra);
      f := SentFrame(c.isServer, final, frameType, key, payload);
      if !c.isServer && |extra| > 0 {
        c.WriteFatal(ExtraInClientMode);
        EndMessage(ExtraInClientMode);
        return err, f;
      }
      e := SendStaged(framePos, final, extra, f);
    }

    /** `copy(w.c.writeBuf[w.pos:], p)` */
    method Append(p: bytes)
      requires Valid() && err == None && |p| <= c.writeBuf.Length - pos
      modifies this`pos, c.writeBuf
      ensures Valid() && pos == old(pos) + |p|
      ensures View() == Pending(old(View()).sent, old(View()).buffered + p)
      ensures forall j :: 0 <= j < old(pos) || pos <= j < c.writeBuf.Length ==> c.writeBuf[j] == old(c.writeBuf[j])
    {
      hide Encode, EncodeAll, SendsMessage, Payloads, Woven;
      ghost var buffered := c.writeBuf[MAX_HEADER..pos];
      CopyAt(c.writeBuf, pos, p);
      assert c.writeBuf[MAX_HEADER..pos] == buffered;
      SplitAt(c.writeBuf[..], MAX_HEADER, pos, pos + |p|);
      pos := pos + |p|;
    }

    /** Sends the full buffer as a frame of its own. */
    method FlushFull() returns (e: Option<WriteError>)
      requires Valid() && err == None
      requires c.writeBuf.Length < INT64_LIMIT
      modifies this, c, c.writeBuf
      ensures Valid() && err == e
      ensures Extends(old(c.wire), old(frames), c.wire, frames)
      ensures old(c.stream) == Whole ==> if e == Some(SocketFailed) then c.stream.Cut? else c.stream == Whole
      ensures e == None || e == Some(SocketFailed) || (e == Some(InvalidControlFrame) && IsControl(messageType))
      ensures e == None ==> View() == Pending(old(View()).sent + [old(View()).buffered], [])
    {
      ghost var f;
      ExtendsSame(c.wire, frames);
      e, f := FlushFrame(false, []);
      ExtendsByOne(old(c.wire), old(frames), f);
      assert old(View()).buffered + [] == old(View()).buffered;
    }

    /** Room in the buffer for at most `max` more bytes, made by sending it when it is full. */
    method NCopy(max: nat) returns (n: nat, e: Option<WriteError>)
      requires Valid() && err == None && max > 0
      requires c.writeBuf.Length < INT64_LIMIT
      modifies this, c, c.writeBuf
      ensures Valid() && err == e
      ensures Extends(old(c.wire), old(frames), c.wire, frames)
      ensures old(c.stream) == Whole ==> if e == Some(SocketFailed) then c.stream.Cut? else c.stream == Whole
      ensures e == None || e == Some(SocketFailed) || (e == Some(InvalidControlFrame) && IsControl(messageType))
      ensures old(pos) < c.writeBuf.Length ==> e == None && unchanged(this, c, c.writeBuf)
      ensures e == None && old(pos) == c.writeBuf.Length ==>
        View() == Pending(old(View()).sent + [old(View()).buffered], [])
      ensures e == None ==> n == Min(c.writeBuf.Length - pos, max) && n > 0
    {
      ExtendsSame(c.wire, frames);
      n := c.writeBuf.Length - pos;
      if n <= 0 {
        e := FlushFull();
        if e != None {
          return 0, e;
        }
        n := c.writeBuf.Length - pos;
      }
      if n > max {
        n := max;
      }
      e := None;
    }

    /** The copying loop of Write and WriteString. */
    method CopyIn(p0: bytes) returns (e: Option<WriteError>)
      requires Valid() && err == None
      requires c.writeBuf.Length < INT64_LIMIT
      modifies this, c, c.writeBuf
      ensures Valid() && err == e
      ensures Extends(old(c.wire), old(frames), c.wire, frames)
      ensures old(c.stream) == Whole ==> if e == Some(SocketFailed) then c.stream.Cut? else c.stream == Whole
      ensures e == None || e == Some(SocketFailed) || (e == Some(InvalidControlFrame) && IsControl(messageType))
      ensures e == None ==> View() == Fill(c.writeBuf.Length - MAX_HEADER, old(View()), p0)
      ensures old(pos) + |p0| <= c.writeBuf.Length ==>
        e == None && pos == old(pos) + |p0| && unchanged(c)
        && forall j :: pos <= j < c.writeBuf.Length ==> c.writeBuf[j] == old(c.writeBuf[j])
    {
      hide Fill, Encode, EncodeAll, SendsMessage, Payloads, Woven, Extends;
      ghost var room := c.writeBuf.Length - MAX_HEADER;
      var p := p0;
      ExtendsSame(c.wire, frames);
      while |p| > 0
        invariant Valid() && err == None
        invariant Extends(old(c.wire), old(frames), c.wire, frames)
        invariant old(c.stream) == Whole ==> c.stream == Whole
        invariant Fill(room, View(), p) == Fill(room, old(View()), p0)
        invariant old(pos) + |p0| <= c.writeBuf.Length ==>
          pos + |p| == old(pos) + |p0| && unchanged(c)
          && forall j :: pos <= j < c.writeBuf.Length ==> c.writeBuf[j] == old(c.writeBuf[j])
      {
        ghost var st, wire, sent := View(), c.wire, frames;
        var n, ne := NCopy(|p|);
        ExtendsOn(old(c.wire), old(frames), wire, sent, c.wire, frames);
        if ne != None {
          return ne;
        }
        FillStep(room, st, View(), p, n);
        Append(p[..n]);
        p := p[n..];
      }
      FillNothing(room, View());
      e := None;
    }

    method Write(p: bytes) returns (e: Option<WriteError>)
      requires Valid()
      requires c.writeBuf.Length + |p| < INT64_LIMIT
      modifies this, c, c.writeBuf
      ensures Valid()
      ensures old(err) != None ==> e == old(err) && unchanged(this, c)
      ensures old(err) == None ==> err == e
      ensures Extends(old(c.wire), old(frames), c.wire, frames)
      ensures old(err) == None && old(c.stream) == Whole ==>
        if e == Some(SocketFailed) then c.stream.Cut? else c.stream == Whole
      ensures old(err) == None ==>
        e == None || e == Some(SocketFailed) || (e == Some(InvalidControlFrame) && IsControl(messageType))
      ensures e == None ==> View() == AfterCall(c.isServer, c.writeBuf.Length, old(View()), WriteBytes(p))
      ensures old(err) == None && old(pos) + |p| <= c.writeBuf.Length ==>
        e == None && pos == old(pos) + |p| && unchanged(c)
        && forall j :: pos <= j < c.writeBuf.Length ==> c.writeBuf[j] == old(c.writeBuf[j])
    {
      ExtendsSame(c.wire, frames);
      if err != None {
        return err;
      }
      if |p| > 2 * c.writeBuf.Length && c.isServer {
        ghost var f;
        e, f := FlushFrame(false, p);
        ExtendsByOne(old(c.wire), old(frames), f);
        return;
      }
      e := CopyIn(p);
    }

    method WriteString(p: bytes) returns (e: Option<WriteError>)
      requires Valid()
      requires c.writeBuf.Length < INT64_LIMIT
      modifies this, c, c.writeBuf
      ensures Valid()
      ensures old(err) != None ==> e == old(err) && unchanged(this, c)
      ensures old(err) == None ==> err == e
      ensures Extends(old(c.wire), old(frames), c.wire, frames)
      ensures old(err) == None && old(c.stream) == Whole ==>
        if e == Some(SocketFailed) then c.stream.Cut? else c.stream == Whole
      ensures old(err) == None ==>
        e == None || e == Some(SocketFailed) || (e == Some(InvalidControlFrame) && IsControl(messageType))
      ensures e == None ==> View() == AfterCall(c.isServer, c.writeBuf.Length, old(View()), WriteText(p))
    {
      ExtendsSame(c.wire, frames);
      if err != None {
        return err;
      }
      e := CopyIn(p);
    }

    method ReadFrom(r: ByteSource) returns (e: Option<WriteError>)
      requires Valid()
      requires c.writeBuf.Length < INT64_LIMIT
      modifies this, c, c.writeBuf, r
      ensures Valid()
      ensures old(err) != None ==> e == old(err) && unchanged(this, c)
      ensures old(err) == None ==> err == e
      ensures Extends(old(c.wire), old(frames), c.wire, frames)
      ensures old(err) == None && old(c.stream) == Whole ==>
        if e == Some(SocketFailed) then c.stream.Cut? else c.stream == Whole
      ensures old(err) == None ==>
        e == None || e == Some(SocketFailed) || (e == Some(InvalidControlFrame) && IsControl(messageType))
      ensures e == None ==> View() == AfterCall(c.isServer, c.writeBuf.Length, old(View()), ReadAllFrom(old(r.chunks)))
    {
      ExtendsSame(c.wire, frames);
      if err != None {
        return err;
      }
      hide Pull, Flatten, Encode, EncodeAll, SendsMessage, Payloads, Woven, Extends;
      ghost var room := c.writeBuf.Length - MAX_HEADER;
      var eof := false;
      while !eof
        invariant Valid() && err == None
        invariant Extends(old(c.wire), old(frames), c.wire, frames)
        invariant old(c.stream) == Whole ==> c.stream == Whole
        invariant !eof ==> Pull(room, View(), r.chunks) == Pull(room, old(View()), old(r.chunks))
        invariant eof ==> View() == Pull(room, old(View()), old(r.chunks))
        decreases !eof, |Flatten(r.chunks)|, |r.chunks|
      {
        ghost var wire, sent := c.wire, frames;
        e, eof := ReadChunk(r);
        ExtendsOn(old(c.wire), old(frames), wire, sent, c.wire, frames);
        if e != None {
          return;
        }
      }
      e := None;
    }

    /** One round of ReadFrom. */
    method ReadChunk(r: ByteSource) returns (e: Option<WriteError>, eof: bool)
      requires Valid() && err == None
      requires c.writeBuf.Length < INT64_LIMIT
      modifies this, c, c.writeBuf, r
      ensures Valid() && err == e
      ensures Extends(old(c.wire), old(frames), c.wire, frames)
      ensures old(c.stream) == Whole ==> if e == Some(SocketFailed) then c.stream.Cut? else c.stream == Whole
      ensures e == None || e == Some(SocketFailed) || (e == Some(InvalidControlFrame) && IsControl(messageType))
      ensures e == None && eof ==> View() == Pull(c.writeBuf.Length - MAX_HEADER, old(View()), old(r.chunks))
      ensures e == None && !eof ==>
        && Pull(c.writeBuf.Length - MAX_HEADER, View(), r.chunks)
             == Pull(c.writeBuf.Length - MAX_HEADER, old(View()), old(r.chunks))
        && (|Flatten(r.chunks)| < |Flatten(old(r.chunks))|
            || (|Flatten(r.chunks)| == |Flatten(old(r.chunks))| && |r.chunks| < |old(r.chunks)|))
    {
      hide Pull, Flatten, Encode, EncodeAll, SendsMessage, Payloads, Woven, Extends;
      ghost var st := View();
      ExtendsSame(c.wire, frames);
      if pos == c.writeBuf.Length {
        e := FlushFull();
        if e != None {
          return e, false;
        }
      }
      PullStep(c.writeBuf.Length - MAX_HEADER, st, View(), r.chunks);
      var p: bytes;
      p, eof := r.Read(c.writeBuf.Length - pos);
      Append(p);
      e := None;
      if eof {
        assert View().buffered + [] == View().buffered;
      }
    }

    /** Sends what is buffered as the last frame: the socket then holds the whole message. */
    method Close() returns (e: Option<WriteError>, ghost f: Frame)
      requires Usable()
      requires c.writeBuf.Length < INT64_LIMIT
      modifies this, c, c.writeBuf
      ensures Usable() && (old(Valid()) ==> Valid()) && err != None
      ensures Extends(old(c.wire), old(frames), c.wire, frames)
      ensures old(err) == None && old(c.stream) == Whole ==>
        if e == Some(SocketFailed) then c.stream.Cut? else c.stream == Whole
      ensures old(err) != None ==> e == old(err) && unchanged(this, c)
      ensures old(err) == None ==>
        e == None || e == Some(SocketFailed) || (e == Some(InvalidControlFrame) && IsControl(messageType))
      ensures old(err) == None && IsData(messageType) ==>
        && Sends(c.isServer, true, old(frameType), old(View()).buffered, f)
        && c.wire == old(c.wire) + (if e == None then [f] else [])
        && c.writeBuf[old(pos)..] == old(c.writeBuf[pos..])
        && c.writeBuf[MAX_HEADER..old(pos)]
             == (match f.mask case None => old(View()).buffered case Some(k) => Masked(k, 0, old(View()).buffered))
      ensures e == None ==>
        SendsMessage(c.isServer, messageType, old(View()).sent + [old(View()).buffered], true, frames)
    {
      ExtendsSame(c.wire, frames);
      if err != None {
        return err, SentFrame(true, true, TEXT, [0, 0, 0, 0], []);
      }
      assert View().buffered + [] == View().buffered;
      e, f := FlushFrame(true, []);
      ExtendsByOne(old(c.wire), old(frames), f);
    }
  }

  lemma FillNothing(room: nat, st: Pending)
    requires 0 < room && |st.buffered| <= room
    ensures Fill(room, st, []) == st
  {
  }

  /** One round of the copying loop, after the buffer was sent if it was full. */
  lemma FillStep(room: nat, st: Pending, st1: Pending, p: bytes, n: nat)
    requires |p| > 0 && |st.buffered| <= room && 0 < room
    requires st1 == if |st.buffered| == room then Pending(st.sent + [st.buffered], []) else st
    requires n == Min(room - |st1.buffered|, |p|)
    ensures Fill(room, st, p) == Fill(room, Pending(st1.sent, st1.buffered + p[..n]), p[n..])
  {
    assert Fill(room, st, p) == Fill(room, st1, p);
  }

  /** One round of ReadFrom, after the buffer was sent if it was full. */
  lemma PullStep(room: nat, st: Pending, st1: Pending, chunks: seq<bytes>)
    requires |st.buffered| <= room && 0 < room
    requires st1 == if |st.buffered| == room then Pending(st.sent + [st.buffered], []) else st
    ensures chunks == [] ==> Pull(room, st, chunks) == st1
    ensures chunks != [] ==>
      var n := room - |st1.buffered|;
      if |chunks[0]| <= n then
        && Pull(room, st, chunks) == Pull(room, Pending(st1.sent, st1.buffered + chunks[0]), chunks[1..])
        && |Flatten(chunks[1..])| <= |Flatten(chunks)|
      else
        && Pull(room, st, chunks)
             == Pull(room, Pending(st1.sent, st1.buffered + chunks[0][..n]), [chunks[0][n..]] + chunks[1..])
        && |Flatten([chunks[0][n..]] + chunks[1..])| < |Flatten(chunks)|
  {
    assert Pull(room, st, chunks) == Pull(room, st1, chunks);
    if chunks != [] && |chunks[0]| > room - |st1.buffered| {
      SplitChunk(chunks, room - |st1.buffered|);
    }
  }

  predicate RefusedControl(frameType: byte, final: bool, payload: bytes) {
    IsControl(frameType) && (!final || |payload| > MAX_CONTROL_PAYLOAD)
  }

  function Payloads(fs: seq<Frame>): (ps: seq<bytes>)
    ensures |ps| == |fs|
    ensures forall i :: 0 <= i < |fs| ==> ps[i] == fs[i].payload
  {
    seq(|fs|, i requires 0 <= i < |fs| => fs[i].payload)
  }
}
