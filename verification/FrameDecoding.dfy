/** advanceFrame undoes the encoding of a frame, and refuses exactly the frames the protocol forbids. */
module FrameDecoding {
  import opened Bytes
  import opened Masking
  import opened Frames
  import opened MessageReading
  import opened Sequences

  /**
   The frames that advanceFrame takes when no extension is agreed; open: a fragmented
   message is being received. Sections 5.1 to 5.5 of RFC 6455 ask for two things more.
   */
  predicate Legal(isServer: bool, open: bool, f: Frame) {
    && f.rsv == 0
    && f.mask.Some? == isServer
    && (f.Control() || IsData(f.opcode) || f.opcode == CONTINUATION)
    && (f.Control() ==> f.fin && f.form == Short)
    && (IsData(f.opcode) ==> !open)
    && (f.opcode == CONTINUATION ==> open)
  }

  /** Section 5.2: the minimal number of bytes is used for the length. */
  predicate Minimal(f: Frame) {
    f.form == ShortestForm(|f.payload|)
  }

  /** Section 5.5.1: the body of a close frame, if there is one, begins with a code of two bytes. */
  predicate CloseBody(f: Frame) {
    f.opcode == CLOSE ==> |f.payload| != 1
  }

  /** What sections 5.1 to 5.5 allow an endpoint to receive. */
  predicate Permitted(isServer: bool, open: bool, f: Frame) {
    Legal(isServer, open, f) && Minimal(f) && CloseBody(f)
  }

  /** The first two bytes of a frame, read back. */
  lemma HeaderBits(f: Frame)
    requires f.WellFormed()
    ensures Byte0(f) % 16 == f.opcode && HasBit(Byte0(f), 128) == f.fin
    ensures f.rsv == 0 <==> !HasBit(Byte0(f), 64) && !HasBit(Byte0(f), 32) && !HasBit(Byte0(f), 16)
    ensures HasBit(Byte1(f), 128) == f.mask.Some? && Byte1(f) % 128 == LengthCode(f)
  {
  }

  /** The collected errors are empty for exactly the legal frames. */
  lemma NoViolations(cfg: Config, final: bool, f: Frame)
    requires f.WellFormed() && !cfg.compression
    ensures Violations(cfg, final, Byte0(f), Byte1(f)) == [] <==> Legal(cfg.isServer, !final, f)
  {
    HeaderBits(f);
  }

  /** The state with which advanceFrame leaves the header of f behind. */
  function AfterHeader(cfg: Config, st: State, f: Frame): State {
    var st1 := st.(
      remaining := |f.payload|,
      decompress := false,
      final := if IsData(f.opcode) || f.opcode == CONTINUATION then f.fin else st.final);
    match f.mask
    case None => st1
    case Some(key) => st1.(maskPos := 0, maskKey := key)
  }

  lemma AdvanceHeader(cfg: Config, st: State, f: Frame, rest: bytes)
    requires f.WellFormed() && |f.payload| < INT64_LIMIT && !cfg.compression
    requires st.remaining == 0
    requires Legal(cfg.isServer, !st.final, f)
    ensures Advance(cfg, st, Encode(f) + rest) == AdvanceKind(cfg, AfterHeader(cfg, st, f), f.opcode, Body(f) + rest)
  {
    var input := Encode(f) + rest;
    var field := BigEndian(LengthSize(f.form), |f.payload|);
    var input2 := field + (KeyBytes(f) + (Body(f) + rest));
    EncodedParts(f, rest);
    NoViolations(cfg, st.final, f);
    HeaderBits(f);
    var st2 := AfterTwoBytes(cfg, st, Byte0(f), Byte1(f));
    assert Advance(cfg, st, input) == AdvanceLength(cfg, st2, f.opcode, input2);
    LengthField(cfg, st2, f, KeyBytes(f) + (Body(f) + rest));
    MaskField(cfg, st2.(remaining := |f.payload|), f, Body(f) + rest);
  }

  lemma EncodedParts(f: Frame, rest: bytes)
    requires f.WellFormed()
    ensures var input := Encode(f) + rest;
            && |input| >= 2 && input[0] == Byte0(f) && input[1] == Byte1(f)
            && input[2..] == BigEndian(LengthSize(f.form), |f.payload|) + (KeyBytes(f) + (Body(f) + rest))
  {
    var b, field, k, body := [Byte0(f), Byte1(f)], BigEndian(LengthSize(f.form), |f.payload|), KeyBytes(f), Body(f);
    hide *;
    FourParts(b, field, k, body, rest);
    EncodeIs(f);
    assert |b| == 2;
  }

  lemma EncodeIs(f: Frame)
    requires f.WellFormed()
    ensures Encode(f) == [Byte0(f), Byte1(f)] + BigEndian(LengthSize(f.form), |f.payload|) + KeyBytes(f) + Body(f)
  {
  }

  lemma FourParts(b: bytes, field: bytes, k: bytes, body: bytes, rest: bytes)
    ensures b + field + k + body + rest == b + (field + (k + (body + rest)))
  {
    Assoc(b + field + k, body, rest);
    Assoc(b + field, k, body + rest);
    Assoc(b, field, k + (body + rest));
  }

  lemma LengthField(cfg: Config, st: State, f: Frame, rest: bytes)
    requires f.WellFormed() && |f.payload| < INT64_LIMIT
    requires st.remaining == LengthCode(f)
    ensures AdvanceLength(cfg, st, f.opcode, BigEndian(LengthSize(f.form), |f.payload|) + rest)
         == AdvanceMask(cfg, st.(remaining := |f.payload|), f.opcode, rest)
  {
    hide Int64, BigEndian, FromBigEndian;
    var width := LengthSize(f.form);
    var field := BigEndian(width, |f.payload|);
    var input := field + rest;
    assert input[..width] == field && input[width..] == rest;
    if width == 0 {
      assert input == rest;
      assert st.(remaining := |f.payload|) == st;
    } else {
      FieldWidths();
      BigEndianRoundTrip(width, |f.payload|);
      Int64Exact(|f.payload|);
    }
  }

  lemma MaskField(cfg: Config, st: State, f: Frame, rest: bytes)
    requires cfg.isServer == f.mask.Some?
    ensures AdvanceMask(cfg, st, f.opcode, KeyBytes(f) + rest)
         == AdvanceKind(cfg, if f.mask.Some? then st.(maskPos := 0, maskKey := f.mask.value) else st, f.opcode, rest)
  {
    var input := KeyBytes(f) + rest;
    if f.mask.Some? {
      assert input[..4] == f.mask.value && input[4..] == rest;
    } else {
      assert input == rest;
    }
  }

  /** A message of this length may be received. */
  predicate WithinLimit(cfg: Config, length: int) {
    length < INT64_LIMIT && (cfg.limit > 0 ==> length <= cfg.limit)
  }

  /**
   A legal data frame is decoded to its FIN, opcode and payload length, with its
   body left to read, exactly when the message stays within the read limit.
   */
  lemma AdvanceDataFrame(cfg: Config, st: State, f: Frame, rest: bytes)
    requires f.WellFormed() && |f.payload| < INT64_LIMIT && !cfg.compression
    requires st.remaining == 0 && 0 <= st.length < INT64_LIMIT
    requires Legal(cfg.isServer, !st.final, f) && !f.Control()
    ensures var r := Advance(cfg, st, Encode(f) + rest);
            var total := st.length + |f.payload|;
            if WithinLimit(cfg, total) then
              r == (Got(f.opcode), AfterHeader(cfg, st, f).(length := total), Body(f) + rest)
            else
              r.0 == Failed(LimitExceeded)
  {
    hide Advance, Encode, Int64;
    AdvanceHeader(cfg, st, f, rest);
    Int64Exact(st.length + |f.payload|);
  }

  /** A legal control frame reaches its handler with its payload in clear, and is consumed. */
  lemma AdvanceControlFrame(cfg: Config, st: State, f: Frame, rest: bytes)
    requires f.WellFormed() && !cfg.compression
    requires st.remaining == 0
    requires Legal(cfg.isServer, !st.final, f) && f.Control()
    ensures Advance(cfg, st, Encode(f) + rest)
         == (HandleControl(cfg, f.opcode, f.payload), AfterHeader(cfg, st, f).(remaining := 0), rest)
  {
    AdvanceHeader(cfg, st, f, rest);
    var input := Body(f) + rest;
    assert input[..|f.payload|] == Body(f) && input[|f.payload|..] == rest;
    if f.mask.Some? {
      MaskedTwice(f.mask.value, 0, f.payload);
    }
    if |f.payload| == 0 {
      assert input == rest && f.payload == [];
    }
  }

  /** The handler for pings (opcode 9) and that for pongs (opcode 10) decide whether such a frame is taken. */
  lemma HandlersDecide(cfg: Config, st: State, f: Frame, rest: bytes)
    requires f.WellFormed() && !cfg.compression && st.remaining == 0
    requires Legal(cfg.isServer, !st.final, f) && (f.opcode == 9 || f.opcode == 10)
    ensures var o := Advance(cfg, st, Encode(f) + rest).0;
            var ok := if f.opcode == 9 then cfg.pingOk(f.payload) else cfg.pongOk(f.payload);
            o == if ok then Got(f.opcode) else Failed(HandlerFailed)
  {
    hide Advance, Encode;
    AdvanceControlFrame(cfg, st, f, rest);
  }

  /** The codes an endpoint may send, by the registry of section 7.4 and the ranges of section 7.4.2. */
  const CLOSE_CODES: set<nat> := {1000, 1001, 1002, 1003, 1007, 1008, 1009, 1010, 1011, 1012, 1013}

  /**
   A close frame (opcode 8): its code, in the first two bytes of the payload, must be
   one of those or from 3000 to 4999; its text must be UTF-8; and the handler is
   asked. Without a code it is asked with 1005.
   */
  lemma CloseDecides(cfg: Config, st: State, f: Frame, rest: bytes)
    requires f.WellFormed() && !cfg.compression && st.remaining == 0
    requires Legal(cfg.isServer, !st.final, f) && f.opcode == 8
    ensures var o := Advance(cfg, st, Encode(f) + rest).0;
            if |f.payload| < 2 then
              o == Failed(if cfg.closeOk(1005, []) then CloseReceived(1005, []) else HandlerFailed)
            else
              var code: nat := 256 * (f.payload[0] as int) + f.payload[1];
              var text := f.payload[2..];
              var known := code in CLOSE_CODES || 3000 <= code <= 4999;
              && (o == Failed(BadCloseCode(code)) <==> !known)
              && (o == Failed(BadCloseText) <==> known && !cfg.utf8(text))
              && (o == Failed(CloseReceived(code, text)) <==> known && cfg.utf8(text) && cfg.closeOk(code, text))
              && (o == Failed(HandlerFailed) <==> known && cfg.utf8(text) && !cfg.closeOk(code, text))
  {
    hide Advance, Encode;
    AdvanceControlFrame(cfg, st, f, rest);
    if |f.payload| >= 2 {
      assert f.payload[..2][..1] == [f.payload[0]];
      assert FromBigEndian([f.payload[0]]) == f.payload[0];
    }
  }

  /** An illegal frame is a protocol error, and nothing behind its first two bytes is looked at. */
  lemma AdvanceIllegalFrame(cfg: Config, st: State, f: Frame, rest: bytes)
    requires f.WellFormed() && !cfg.compression
    requires st.remaining == 0
    requires !Legal(cfg.isServer, !st.final, f)
    ensures var r := Advance(cfg, st, Encode(f) + rest);
            && r.0.Failed? && r.0.error.ProtocolError? && r.0.error.violations != []
            && r.2 == (Encode(f) + rest)[2..]
  {
    EncodedParts(f, rest);
    NoViolations(cfg, st.final, f);
  }

  // ----- Where the reader takes more than is allowed -----

  /** The reader does not look at the form of a length: it does the same with every form in which a data frame can come. */
  lemma FormsAlike(cfg: Config, st: State, f: Frame, form: LengthForm, rest: bytes)
    requires f.WellFormed() && f.(form := form).WellFormed() && |f.payload| < INT64_LIMIT && !cfg.compression
    requires st.remaining == 0 && Legal(cfg.isServer, !st.final, f) && !f.Control()
    ensures Advance(cfg, st, Encode(f.(form := form)) + rest) == Advance(cfg, st, Encode(f) + rest)
  {
    hide Advance, Encode;
    AdvanceHeader(cfg, st, f, rest);
    AdvanceHeader(cfg, st, f.(form := form), rest);
  }

  /** A payload of fewer than 65536 bytes, its length in eight bytes, is taken by an idle reader of either role. */
  lemma LongTaken(cfg: Config, st: State, key: Key, payload: bytes, rest: bytes)
    requires !cfg.compression && st.remaining == 0 && st.final && 0 <= st.length
    requires |payload| < 0x1_0000 && WithinLimit(cfg, st.length + |payload|)
    ensures var f := SentFrame(!cfg.isServer, true, TEXT, key, payload).(form := Long);
            f.WellFormed() && !Permitted(cfg.isServer, false, f) && Advance(cfg, st, Encode(f) + rest).0 == Got(TEXT)
  {
    hide Advance, Encode;
    var f := SentFrame(!cfg.isServer, true, TEXT, key, payload);
    FormsAlike(cfg, st, f, Long, rest);
    AdvanceDataFrame(cfg, st, f, rest);
  }

  /** A close frame with a body of one byte is taken for one without a body. */
  lemma OneByteClose(cfg: Config, st: State, key: Key, b: byte, rest: bytes)
    requires !cfg.compression && st.remaining == 0
    ensures var f := SentFrame(!cfg.isServer, true, CLOSE, key, [b]);
            && Legal(cfg.isServer, !st.final, f) && !Permitted(cfg.isServer, !st.final, f)
            && Advance(cfg, st, Encode(f) + rest).0
                 == Failed(if cfg.closeOk(NO_STATUS, []) then CloseReceived(NO_STATUS, []) else HandlerFailed)
  {
    hide Advance, Encode;
    AdvanceControlFrame(cfg, st, SentFrame(!cfg.isServer, true, CLOSE, key, [b]), rest);
  }

  /** No collected errors and a frame that is allowed: the same but for the two things the reader does not look at. */
  lemma PermittedExactly(cfg: Config, final: bool, f: Frame)
    requires f.WellFormed() && !cfg.compression
    ensures Permitted(cfg.isServer, !final, f) <==>
            Violations(cfg, final, Byte0(f), Byte1(f)) == [] && Minimal(f) && CloseBody(f)
    ensures f.Control() && Violations(cfg, final, Byte0(f), Byte1(f)) == [] ==> Minimal(f)
    ensures !f.Control() ==> CloseBody(f)
  {
    NoViolations(cfg, final, f);
  }

  /** What is left of a frame's body is skipped before the next frame is looked at. */
  lemma AdvanceSkips(cfg: Config, st: State, body: bytes, rest: bytes)
    requires st.remaining == |body| && |rest| >= 2
    ensures Advance(cfg, st, body + rest) == Advance(cfg, st.(remaining := 0), rest)
  {
    assert (body + rest)[|body|..] == rest;
    if |body| == 0 {
      assert body + rest == rest;
    }
  }
}
