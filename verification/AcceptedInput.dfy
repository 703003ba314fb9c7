/** Any input: what advanceFrame accepts is the encoding of frames that may come where they come. */
module AcceptedInput {
  import opened Bytes
  import opened CutInput
  import opened FrameDecoding
  import opened Frames
  import opened Masking
  import opened MessageReading
  import opened MessageStream
  import opened Options
  import opened ReaderSafety
  import opened Sequences

  lemma {:induction false} BigEndianBack(s: bytes)
    ensures BigEndian(|s|, FromBigEndian(s)) == s
  {
    if s != [] {
      BigEndianBack(s[..|s| - 1]);
    }
  }

  lemma HeaderByte(p: byte)
    ensures p == (if HasBit(p, 128) then 128 else 0) + p % 128
    ensures !HasBit(p, 64) && !HasBit(p, 32) && !HasBit(p, 16) ==> p == (if HasBit(p, 128) then 128 else 0) + p % 16
  {
  }

  /** The form in which a frame with this second byte gives its length. */
  function FormOf(code: int): LengthForm {
    if code == 126 then Medium else if code == 127 then Long else Short
  }

  /** A body with this payload has been accepted, `rest` of the input follows it. */
  ghost predicate BodyTaken(cfg: Config, opcode: byte, key: Key, payload: bytes, input: bytes, r: (Outcome, State, bytes)) {
    && r.0 == Got(opcode)
    && 0 <= r.1.remaining <= |r.2|
    && input == WireBody(!cfg.isServer, key, payload) + r.2[r.1.remaining..]
    && (IsControl(opcode) ==> r.1.remaining == 0 && HandleControl(cfg, opcode, payload) == Got(opcode))
    && (!IsControl(opcode) ==> r.1.remaining == |payload|)
  }

  /** The call succeeded, and the network has delivered the body of the frame it found. */
  predicate Complete(r: (Outcome, State, bytes)) {
    r.0.Got? && r.1.remaining <= |r.2|
  }

  /** Steps 5 to 7. */
  lemma KindTaken(cfg: Config, st: State, opcode: byte, input: bytes) returns (payload: bytes)
    requires 0 <= st.remaining && (IsControl(opcode) || opcode == CONTINUATION || IsData(opcode))
    requires Complete(AdvanceKind(cfg, st, opcode, input))
    ensures |payload| == st.remaining
    ensures BodyTaken(cfg, opcode, st.maskKey, payload, input, AdvanceKind(cfg, st, opcode, input))
    ensures AdvanceKind(cfg, st, opcode, input).1.final == st.final
  {
    hide HandleControl, Int64, Masked;
    var raw := input[..st.remaining];
    payload := if cfg.isServer then Masked(st.maskKey, 0, raw) else raw;
    MaskedTwice(st.maskKey, 0, raw);
    assert input == raw + input[st.remaining..];
    if st.remaining == 0 {
      assert payload == [] && input[0..] == input;
    }
  }

  /** Step 4. */
  lemma MaskTaken(cfg: Config, st: State, opcode: byte, input: bytes) returns (key: Key, payload: bytes, rest: bytes)
    requires 0 <= st.remaining && (IsControl(opcode) || opcode == CONTINUATION || IsData(opcode))
    requires Complete(AdvanceMask(cfg, st, opcode, input))
    ensures |payload| == st.remaining && input == WireKey(!cfg.isServer, key) + rest
    ensures BodyTaken(cfg, opcode, key, payload, rest, AdvanceMask(cfg, st, opcode, input))
    ensures AdvanceMask(cfg, st, opcode, input).1.final == st.final
  {
    hide AdvanceKind, HandleControl, WireBody;
    if cfg.isServer {
      key, rest := input[..4], input[4..];
      payload := KindTaken(cfg, st.(maskPos := 0, maskKey := key), opcode, rest);
    } else {
      key, rest := st.maskKey, input;
      payload := KindTaken(cfg, st, opcode, rest);
      assert [] + rest == rest;
    }
  }

  /** Step 3. */
  lemma LengthTaken(cfg: Config, st: State, opcode: byte, input: bytes)
      returns (key: Key, payload: bytes, rest: bytes, form: LengthForm)
    requires 0 <= st.remaining < 128 && (IsControl(opcode) || opcode == CONTINUATION || IsData(opcode))
    requires Complete(AdvanceLength(cfg, st, opcode, input))
    ensures form == FormOf(st.remaining) && |payload| < INT64_LIMIT
    ensures form == Short ==> |payload| == st.remaining
    ensures form == Medium ==> |payload| < 0x1_0000
    ensures input == BigEndian(LengthSize(form), |payload|) + (WireKey(!cfg.isServer, key) + rest)
    ensures BodyTaken(cfg, opcode, key, payload, rest, AdvanceLength(cfg, st, opcode, input))
    ensures AdvanceLength(cfg, st, opcode, input).1.final == st.final
  {
    hide AdvanceMask, BodyTaken, WireKey, Int64, BigEndian, FromBigEndian;
    form := FormOf(st.remaining);
    var width := LengthSize(form);
    var field, behind := input[..width], input[width..];
    assert input == field + behind;
    BigEndianBack(field);
    if width == 0 {
      key, payload, rest := MaskTaken(cfg, st, opcode, input);
      NoField(|payload|);
      assert behind == input;
    } else {
      BigEndianBound(field);
      FieldWidths();
      Int64Exact(FromBigEndian(field));
      key, payload, rest := MaskTaken(cfg, st.(remaining := FromBigEndian(field)), opcode, behind);
    }
  }

  lemma NoField(n: nat)
    ensures BigEndian(0, n) == []
  {
  }

  /** What the absence of violations says of the first two bytes. */
  lemma TwoBytesTaken(cfg: Config, final: bool, p0: byte, p1: byte)
    requires !cfg.compression && Violations(cfg, final, p0, p1) == []
    ensures p0 == (if HasBit(p0, 128) then FINAL_BIT else 0) + p0 % 16
    ensures p1 == (if cfg.isServer then MASK_BIT else 0) + p1 % 128
    ensures IsControl(p0 % 16) || p0 % 16 == CONTINUATION || IsData(p0 % 16)
    ensures IsControl(p0 % 16) ==> HasBit(p0, 128) && p1 % 128 <= MAX_CONTROL_PAYLOAD
    ensures IsData(p0 % 16) ==> final
    ensures p0 % 16 == CONTINUATION ==> !final
  {
    HeaderByte(p0);
    HeaderByte(p1);
    hide HasBit;
  }

  /** f was accepted in front of `rest`. */
  ghost predicate FrameTaken(cfg: Config, st: State, f: Frame, input: bytes) {
    var r := Advance(cfg, st, input);
    && f.WellFormed() && |f.payload| < INT64_LIMIT && Legal(cfg.isServer, !st.final, f)
    && r.0 == Got(f.opcode) && 0 <= r.1.remaining <= |r.2|
    && input == Encode(f) + r.2[r.1.remaining..]
    && r.1.final == (if f.Control() then st.final else f.fin)
    && r.1.remaining == (if f.Control() then 0 else |f.payload|)
    && (f.Control() ==> HandleControl(cfg, f.opcode, f.payload) == Got(f.opcode))
  }

  /** Steps 1 and 2: whatever advanceFrame accepts is the encoding of a frame that may come there. */
  lemma AdvanceTaken(cfg: Config, st: State, input: bytes) returns (f: Frame)
    requires !cfg.compression && st.remaining == 0 && Complete(Advance(cfg, st, input))
    ensures FrameTaken(cfg, st, f, input)
  {
    hide HasBit, Violations, AdvanceLength, HandleControl, BigEndian, Masked, WireKey, WireBody, Encode;
    var p0, p1 := input[0], input[1];
    TwoBytesTaken(cfg, st.final, p0, p1);
    var st1 := AfterTwoBytes(cfg, st, p0, p1);
    var key, payload, rest, form := LengthTaken(cfg, st1, p0 % 16, input[2..]);
    f := Frame(HasBit(p0, 128), 0, p0 % 16, if cfg.isServer then Some(key) else None, form, payload);
    var r := Advance(cfg, st, input);
    Reassembled(cfg, f, p0, p1, key, input, rest, r.2[r.1.remaining..]);
  }

  /** An accepted frame is one that sections 5.1 to 5.5 allow exactly if its length is in the shortest form. */
  lemma TakenIsPermitted(cfg: Config, st: State, input: bytes) returns (f: Frame)
    requires !cfg.compression && st.remaining == 0 && Complete(Advance(cfg, st, input))
    ensures FrameTaken(cfg, st, f, input)
    ensures Permitted(cfg.isServer, !st.final, f) <==> Minimal(f)
    ensures f.Control() ==> Minimal(f) && f.opcode != CLOSE
  {
    hide Advance, Encode;
    f := AdvanceTaken(cfg, st, input);
  }

  lemma Reassembled(cfg: Config, f: Frame, p0: byte, p1: byte, key: Key, input: bytes, rest: bytes, behind: bytes)
    requires f.WellFormed() && |input| >= 2 && input[0] == p0 && input[1] == p1
    requires p0 == (if f.fin then FINAL_BIT else 0) + f.opcode && f.rsv == 0
    requires p1 == (if cfg.isServer then MASK_BIT else 0) + LengthCode(f)
    requires f.mask == if cfg.isServer then Some(key) else None
    requires input[2..] == BigEndian(LengthSize(f.form), |f.payload|) + (WireKey(!cfg.isServer, key) + rest)
    requires rest == WireBody(!cfg.isServer, key, f.payload) + behind
    ensures input == Encode(f) + behind
  {
    assert KeyBytes(f) == WireKey(!cfg.isServer, key) && Body(f) == WireBody(!cfg.isServer, key, f.payload);
    var field, k, body := BigEndian(LengthSize(f.form), |f.payload|), KeyBytes(f), Body(f);
    EncodeIs(f);
    FourParts([p0, p1], field, k, body, behind);
    hide *;
    assert input == [p0, p1] + input[2..];
  }

  // ----- Frame after frame -----

  /** Each of these frames may come where it comes; open: a message is being received in front of them. */
  predicate Follows(isServer: bool, open: bool, fs: seq<Frame>)
    decreases |fs|
  {
    fs == [] || (Legal(isServer, open, fs[0]) && Follows(isServer, if fs[0].Control() then open else !fs[0].fin, fs[1..]))
  }

  lemma {:induction false} FollowsConforms(isServer: bool, fs: seq<Frame>, i: nat)
    requires i <= |fs| && Conforms(isServer, fs, i) && Follows(isServer, OpenAfter(fs, i), fs[i..])
    ensures Conforms(isServer, fs, |fs|)
    decreases |fs| - i
  {
    hide Legal, OpenAfter;
    if i < |fs| {
      assert fs[i..][1..] == fs[i + 1..] && fs[i..][0] == fs[i];
      OpenAfterNext(fs, i);
      FollowsConforms(isServer, fs, i + 1);
    }
  }

  /** What stands in front of the next frame, with what is left of the one before skipped. */
  lemma SkipFirst(cfg: Config, st: State, input: bytes)
    requires 0 <= st.remaining && Advance(cfg, st, input).0.Got?
    ensures st.remaining <= |input| && Advance(cfg, st, input) == Advance(cfg, st.(remaining := 0), input[st.remaining..])
  {
    hide AdvanceLength, Violations;
  }

  /** One accepted frame, its body made up to its full length if the input ends within it. */
  lemma NextTaken(cfg: Config, st: State, input: bytes) returns (f: Frame, pad: bytes)
    requires !cfg.compression && st.remaining == 0 && Advance(cfg, st, input).0.Got?
    requires 0 <= st.length < INT64_LIMIT
    ensures FrameTaken(cfg, st, f, input + pad)
    ensures var r := Advance(cfg, st, input);
            && WithMore(r, Advance(cfg, st, input + pad), pad)
            && (pad != [] ==> |r.2 + pad| == r.1.remaining && |pad| <= |f.payload|)
            && (r.1.remaining <= |r.2| <==> pad == [])
  {
    hide Advance, Encode;
    var r := Advance(cfg, st, input);
    if r.1.remaining <= |r.2| {
      pad := [];
      assert input + [] == input && r.2 + [] == r.2;
    } else {
      ControlsComplete(cfg, st, input);
      pad := seq(r.1.remaining - |r.2|, _ => 0);
      AdvancePrefix(cfg, st, input, pad);
    }
    f := AdvanceTaken(cfg, st, input + pad);
  }

  lemma ControlsComplete(cfg: Config, st: State, input: bytes)
    requires 0 <= st.remaining < INT64_LIMIT && 0 <= st.length < INT64_LIMIT
    ensures var (o, st1, _) := Advance(cfg, st, input);
            o.Got? && IsControl(o.frameType) ==> st1.remaining == 0
  {
    hide Advance;
    AdvanceCounts(cfg, st, input);
  }

  /**
   What the input is, in front of which the reader stands: the frames fs, of which
   the last may be cut off by the length of pad, and then whatever follows them.
   */
  ghost predicate Holds(cfg: Config, st: State, input: bytes, fs: seq<Frame>, pad: bytes, rest: bytes) {
    && 0 <= st.remaining <= |input|
    && AllWellFormed(fs) && Sized(fs)
    && input[st.remaining..] + pad == EncodeAll(fs) + rest
    && (pad != [] ==> rest == [] && fs != [] && |pad| <= |fs[|fs| - 1].payload|)
    && Follows(cfg.isServer, !st.final, fs)
    && NoneRefused(cfg, fs, |fs|)
    && WithinLimit(cfg, st.length + DataLength(fs))
  }

  /** The reader has counted so far without wrapping. */
  predicate Counting(cfg: Config, st: State) {
    0 <= st.remaining < INT64_LIMIT && 0 <= st.length && WithinLimit(cfg, st.length)
  }

  /** What the reader knows behind one frame that it took in front of input1. */
  ghost predicate Past(cfg: Config, st: State, input: bytes, f: Frame, st1: State, input1: bytes) {
    && f.WellFormed() && |f.payload| < INT64_LIMIT && Legal(cfg.isServer, !st.final, f) && !Refused(cfg, f)
    && 0 <= st.remaining <= |input| && 0 <= st1.remaining <= |input1|
    && input[st.remaining..] == Encode(f) + input1[st1.remaining..]
    && st1.final == (if f.Control() then st.final else f.fin)
    && st1.length == st.length + (if f.Control() then 0 else |f.payload|)
  }

  lemma OneMoreHeld(cfg: Config, st: State, input: bytes, f: Frame, st1: State, input1: bytes,
                    fs: seq<Frame>, pad: bytes, rest: bytes)
    requires Past(cfg, st, input, f, st1, input1) && Holds(cfg, st1, input1, fs, pad, rest)
    ensures Holds(cfg, st, input, [f] + fs, pad, rest)
  {
    hide Legal, Refused, Encode;
    var all := [f] + fs;
    assert all[1..] == fs && all[0] == f;
    hide EncodeAll;
    Assoc(Encode(f), input1[st1.remaining..], pad);
    EncodeAllStep(all, rest);
  }

  lemma NothingHeld(cfg: Config, st: State, input: bytes)
    requires 0 <= st.remaining <= |input| && Counting(cfg, st)
    ensures Holds(cfg, st, input, [], [], input[st.remaining..])
  {
    var rest := input[st.remaining..];
    assert [] + rest == rest == rest + [];
  }

  /** The bytes that were made up belong to the pad. */
  lemma CutHeld(cfg: Config, st: State, input: bytes, cut: bytes, fs: seq<Frame>, rest: bytes)
    requires Holds(cfg, st, input + cut, fs, [], rest) && 0 <= st.remaining <= |input|
    requires cut != [] ==> rest == [] && fs != [] && |cut| <= |fs[|fs| - 1].payload|
    ensures Holds(cfg, st, input, fs, cut, rest)
  {
    hide EncodeAll, Follows, NoneRefused, DataLength, AllWellFormed, Sized;
    assert (input + cut)[st.remaining..] == input[st.remaining..] + cut;
  }

  /** One accepted frame, as NextTaken gives it. */
  lemma GoesPast(cfg: Config, st: State, input: bytes) returns (f: Frame, cut: bytes)
    requires !cfg.compression && Counting(cfg, st) && Advance(cfg, st, input).0.Got?
    ensures var (_, st1, input1) := Advance(cfg, st, input);
            && Past(cfg, st, input + cut, f, st1, input1 + cut) && Counting(cfg, st1) && 0 <= st.remaining <= |input|
            && 0 <= st1.remaining <= |input1 + cut|
            && (cut != [] ==> |input1 + cut| == st1.remaining && |cut| <= |f.payload|)
            && (st1.remaining <= |input1| <==> cut == [])
  {
    hide Advance, Encode, Legal, HandleControl;
    SkipFirst(cfg, st, input);
    var st0, input0 := st.(remaining := 0), input[st.remaining..];
    AdvanceCounts(cfg, st0, input0);
    f, cut := NextTaken(cfg, st0, input0);
    assert (input + cut)[st.remaining..] == input0 + cut;
  }

  /** If n more frames are accepted, then they are there. */
  lemma {:induction false} WalkTaken(cfg: Config, st: State, input: bytes, n: nat)
      returns (fs: seq<Frame>, pad: bytes, rest: bytes)
    requires !cfg.compression && Counting(cfg, st) && n > 0 && Walk(cfg, st, input, n).1 == None
    ensures |fs| == n && st.remaining <= |input| && Holds(cfg, st, input, fs, pad, rest)
    decreases n
  {
    hide Advance, Past, Holds, Counting;
    var (_, st1, input1) := Advance(cfg, st, input);
    var f, cut := GoesPast(cfg, st, input);
    if n == 1 {
      rest := (input1 + cut)[st1.remaining..];
      NothingHeld(cfg, st1, input1 + cut);
      OneMoreHeld(cfg, st, input + cut, f, st1, input1 + cut, [], [], rest);
      assert [f] + [] == [f];
      CutHeld(cfg, st, input, cut, [f], rest);
      fs, pad := [f], cut;
    } else {
      fs, pad, rest := WalkTaken(cfg, st1, input1, n - 1);
      assert input + [] == input && input1 + [] == input1;
      OneMoreHeld(cfg, st, input, f, st1, input1, fs, pad, rest);
      fs := [f] + fs;
    }
  }

  /**
   The other half of AcceptsGrammar, for every input: if the reader of a fresh
   connection accepts n frames, then the input begins with n frames that conform,
   none of them refused, all together within the limit; only of the last frame may
   a part of the body, the length of pad, be missing.
   */
  lemma AcceptedAreFrames(cfg: Config, input: bytes, n: nat) returns (fs: seq<Frame>, pad: bytes, rest: bytes)
    requires !cfg.compression && Walk(cfg, Start(), input, n).1 == None
    ensures |fs| == n && AllWellFormed(fs) && Sized(fs)
    ensures input + pad == EncodeAll(fs) + rest
    ensures pad != [] ==> rest == [] && n > 0 && |pad| <= |fs[n - 1].payload|
    ensures Conforms(cfg.isServer, fs, n) && NoneRefused(cfg, fs, n) && WithinLimit(cfg, DataLength(fs))
  {
    hide Walk, EncodeAll, Legal, HandleControl;
    if n == 0 {
      fs, pad, rest := [], [], input;
      NothingHeld(cfg, Start(), input);
    } else {
      fs, pad, rest := WalkTaken(cfg, Start(), input, n);
    }
    assert input[0..] == input && fs[0..] == fs;
    FollowsConforms(cfg.isServer, fs, 0);
  }
}
