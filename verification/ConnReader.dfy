/** The read fields of a Conn and the methods of ws/conn.go that update them in place. */
module ConnReader {
  import opened Bytes
  import opened Masking
  import opened Frames
  import opened MessageReading
  import MR = MessageReading
  import opened Options

  class Conn {
    const cfg: Config
    /** br: what the network has still to deliver. */
    var br: bytes
    var readRemaining: int
    var readFinal: bool
    var readLength: int
    var readMaskPos: nat
    var readMaskKey: Key
    var readErr: Option<ReadError>
    var readerOpen: bool
    var readDecompress: bool

    function St(): State
      reads this
    {
      State(readRemaining, readFinal, readLength, readMaskPos, readMaskKey, readErr, readerOpen, readDecompress)
    }

    constructor (cfg: Config, br: bytes)
      ensures St() == Start() && this.br == br && this.cfg == cfg
    {
      this.cfg, this.br := cfg, br;
      readRemaining, readFinal, readLength, readMaskPos := 0, true, 0, 0;
      readMaskKey, readErr, readerOpen, readDecompress := [0, 0, 0, 0], None, false, false;
    }

    /** read: the next n bytes, or what there is and an error. */
    method ReadExactly(n: nat) returns (p: bytes, err: Option<ReadError>)
      modifies this`br
      ensures n <= |old(br)| ==> err == None && p == old(br)[..n] && br == old(br)[n..]
      ensures n > |old(br)| ==> err == Some(UnexpectedEnd) && br == []
    {
      if n <= |br| {
        p, br, err := br[..n], br[n..], None;
      } else {
        p, br, err := br, [], Some(UnexpectedEnd);
      }
    }

    /** setReadRemaining */
    method SetReadRemaining(n: int) returns (err: Option<ReadError>)
      modifies this`readRemaining
      ensures n < 0 ==> err == Some(LimitExceeded) && readRemaining == old(readRemaining)
      ensures n >= 0 ==> err == None && readRemaining == n
    {
      if n < 0 {
        return Some(LimitExceeded);
      }
      readRemaining := n;
      return None;
    }

    /** Steps 1 and 2 of advanceFrame. */
    method AdvanceFrame() returns (o: Outcome)
      modifies this
      ensures (o, St(), br) == Advance(cfg, old(St()), old(br))
    {
      if readRemaining > 0 {
        if readRemaining > |br| {
          br := [];
          return Failed(EndOfInput);
        }
        br := br[readRemaining..];
      }

      var p, err := ReadExactly(2);
      if err != None {
        return Failed(err.value);
      }
      var errors := CheckTwoBytes(p[0], p[1]);
      if |errors| > 0 {
        return Failed(ProtocolError(errors));
      }
      o := AdvanceRest(p[0] % 16, HasBit(p[1], 128));
    }

    /** Step 2: the errors in the first two bytes, collected in the order of the source. */
    method CheckTwoBytes(p0: byte, p1: byte) returns (errors: seq<Violation>)
      modifies this
      ensures St() == AfterTwoBytes(cfg, old(St()), p0, p1) && br == old(br)
      ensures errors == Violations(cfg, old(readFinal), p0, p1)
      ensures errors == [] ==> HasBit(p1, 128) == cfg.isServer
    {
      var _ := SetReadRemaining(p1 % 128);
      errors := CheckRsv(p0);
      errors := CheckOpcode(errors, p0, p1);
      if HasBit(p1, 128) != cfg.isServer {
        errors := errors + [WrongMask];
      }
    }

    method CheckRsv(p0: byte) returns (errors: seq<Violation>)
      modifies this`readDecompress
      ensures readDecompress == (HasBit(p0, 64) && cfg.compression)
      ensures errors == RsvViolations(cfg, p0)
    {
      errors := [];
      readDecompress := false;
      if HasBit(p0, 64) {
        if cfg.compression {
          readDecompress := true;
        } else {
          errors := errors + [Rsv1Set];
        }
      }
      if HasBit(p0, 32) {
        errors := errors + [Rsv2Set];
      }
      if HasBit(p0, 16) {
        errors := errors + [Rsv3Set];
      }
    }

    method CheckOpcode(errors0: seq<Violation>, p0: byte, p1: byte) returns (errors: seq<Violation>)
      requires readRemaining == p1 % 128
      modifies this`readFinal
      ensures readFinal == if IsControl(p0 % 16) || !(IsData(p0 % 16) || p0 % 16 == CONTINUATION)
                           then old(readFinal) else HasBit(p0, 128)
      ensures errors == OpcodeViolations(errors0, old(readFinal), p0, p1)
    {
      var frameType := p0 % 16;
      var final := HasBit(p0, 128);
      errors := errors0;
      if IsControl(frameType) {
        if readRemaining > MAX_CONTROL_PAYLOAD {
          errors := errors + [ControlTooLong];
        }
        if !final {
          errors := errors + [ControlNotFinal];
        }
      } else if IsData(frameType) {
        if !readFinal {
          errors := errors + [DataBeforeFin];
        }
        readFinal := final;
      } else if frameType == CONTINUATION {
        if readFinal {
          errors := errors + [ContinuationAfterFin];
        }
        readFinal := final;
      } else {
        errors := errors + [UnknownOpcode];
      }
    }

    /** Steps 3 to 7. */
    method AdvanceRest(frameType: byte, mask: bool) returns (o: Outcome)
      requires mask == cfg.isServer
      modifies this
      ensures (o, St(), br) == AdvanceLength(cfg, old(St()), frameType, old(br))
    {
      if readRemaining == 126 || readRemaining == 127 {
        var width := if readRemaining == 126 then 2 else 8;
        var p, err := ReadExactly(width);
        if err != None {
          return Failed(err.value);
        }
        err := SetReadRemaining(Int64(FromBigEndian(p)));
        if err != None {
          return Failed(err.value);
        }
      }
      if mask {
        readMaskPos := 0;
        var p, err := ReadExactly(4);
        if err != None {
          return Failed(err.value);
        }
        readMaskKey := p;
      }
      o := AccountOrHandle(frameType);
    }

    /** Steps 5 to 7. */
    method AccountOrHandle(frameType: byte) returns (o: Outcome)
      modifies this
      ensures (o, St(), br) == AdvanceKind(cfg, old(St()), frameType, old(br))
    {
      if frameType == CONTINUATION || frameType == TEXT || frameType == BINARY {
        readLength := Int64(readLength + readRemaining);
        if readLength < 0 {
          return Failed(LimitExceeded);
        }
        if cfg.limit > 0 && readLength > cfg.limit {
          return Failed(LimitExceeded);
        }
        return Got(frameType);
      }
      var payload: bytes := [];
      if readRemaining > 0 {
        var err;
        payload, err := ReadExactly(readRemaining);
        var _ := SetReadRemaining(0);
        if err != None {
          return Failed(err.value);
        }
        if cfg.isServer {
          payload := Unmask(readMaskKey, payload);
        }
      }
      o := HandleControl(cfg, frameType, payload);
    }

    /** NextReader */
    method NextReader() returns (messageType: Option<byte>)
      modifies this
      ensures (messageType, St(), br) == MR.NextReader(cfg, old(St()), old(br))
    {
      readerOpen := false;
      readLength := 0;
      while readErr == None
        invariant FindData(cfg, St(), br) == MR.NextReader(cfg, old(St()), old(br))
        decreases |br|, readErr == None
      {
        var o := AdvanceFrame();
        match o {
          case Failed(e) =>
            readErr := Some(e);
          case Got(frameType) =>
            if frameType == TEXT || frameType == BINARY {
              readerOpen := true;
              return Some(frameType);
            }
        }
      }
      return None;
    }

    /** Read of the message reader, into b; the network has `ready` bytes at hand. */
    method Read(b: array<byte>, ready: nat) returns (r: ReadResult)
      modifies this, b
      ensures (r, St(), br) == MR.Read(cfg, old(St()), old(br), b.Length, ready)
      ensures r.Data? ==> |r.p| <= b.Length && b[..|r.p|] == r.p
    {
      if !readerOpen {
        return End;
      }
      while readErr == None
        invariant readerOpen
        invariant ReadLoop(cfg, St(), br, b.Length, ready) == MR.Read(cfg, old(St()), old(br), b.Length, ready)
        decreases |br|, readErr == None
      {
        if readRemaining > 0 {
          r := ReadInto(b, ready);
          return;
        }
        if readFinal {
          readerOpen := false;
          return End;
        }
        var o := AdvanceFrame();
        match o {
          case Failed(e) =>
            readErr := Some(e);
          case Got(frameType) =>
            if frameType == TEXT || frameType == BINARY {
              readErr := Some(UnexpectedData);
            }
        }
      }
      var err := readErr.value;
      if err == EndOfInput && readerOpen {
        err := UnexpectedEnd;
      }
      return Error(err);
    }

    /** The part of Read for a frame with payload left. */
    method ReadInto(b: array<byte>, ready: nat) returns (r: ReadResult)
      requires readErr == None && readRemaining > 0
      modifies this, b
      ensures (r, St(), br) == ReadPayload(cfg, old(St()), old(br), b.Length, ready)
      ensures r.Data? ==> |r.p| <= b.Length && b[..|r.p|] == r.p
    {
      hide Masked, MasksRange;
      var size := b.Length;
      if size > readRemaining {
        size := readRemaining;
      }
      var n := Min3(size, |br|, ready);
      var eof := size > 0 && br == [];
      var p := TakeInto(b, n);
      if eof {
        readErr := Some(EndOfInput);
      }
      var _ := SetReadRemaining(readRemaining - n);
      if readRemaining > 0 && readErr == Some(EndOfInput) {
        readErr := Some(UnexpectedEnd);
      }
      return if readErr == None then Data(p) else Error(readErr.value);
    }

    /** The next n bytes of the network, unmasked, at the start of b. */
    method TakeInto(b: array<byte>, n: nat) returns (p: bytes)
      requires n <= |br| && n <= b.Length
      modifies this`br, this`readMaskPos, b
      ensures br == old(br)[n..]
      ensures readMaskPos == if cfg.isServer then (old(readMaskPos) + n) % 4 else old(readMaskPos)
      ensures p == (if cfg.isServer then Masked(readMaskKey, old(readMaskPos), old(br)[..n]) else old(br)[..n])
      ensures b[..n] == p
    {
      CopyAt(b, 0, br[..n]);
      br := br[n..];
      if cfg.isServer {
        ghost var raw, pos := b[..], readMaskPos;
        readMaskPos := MaskByByte(readMaskKey, readMaskPos, b, 0, n);
        MaskedIs(readMaskKey, pos, raw[0..n], b[0..n]);
      }
      p := b[..n];
    }
  }

  /** maskBytes on a payload just read. */
  method Unmask(key: Key, payload: bytes) returns (r: bytes)
    ensures r == Masked(key, 0, payload)
  {
    var b := new byte[|payload|](i requires 0 <= i < |payload| => payload[i]);
    assert b[0..|payload|] == payload;
    var _ := MaskByByte(key, 0, b, 0, |payload|);
    MaskedIs(key, 0, payload, b[..]);
    r := b[..];
  }
}
