/**
 What the reader keeps on any input: it accepts the frame sequences of the
 fragmentation grammar and no others, its length accounting is exact in spite
 of 64-bit wrap-around, and an error is final.
 */
module ReaderSafety {
  import opened Bytes
  import opened Masking
  import opened Frames
  import opened MessageReading
  import opened FrameDecoding
  import opened MessageStream
  import opened Options

  /**
   After the first i frames a message is open: some data or continuation frame
   without FIN has only control frames behind it (section 5.4).
   */
  ghost predicate OpenAfter(fs: seq<Frame>, i: nat)
    requires i <= |fs|
  {
    exists j :: 0 <= j < i && !fs[j].Control() && !fs[j].fin && ControlsOnly(fs, j + 1, i)
  }

  predicate ControlsOnly(fs: seq<Frame>, lo: nat, hi: nat)
    requires lo <= hi <= |fs|
  {
    forall k :: lo <= k < hi ==> fs[k].Control()
  }

  /** Every one of the first n frames is one that may come where it comes. */
  ghost predicate Conforms(isServer: bool, fs: seq<Frame>, n: nat)
    requires n <= |fs|
  {
    forall i :: 0 <= i < n ==> Legal(isServer, OpenAfter(fs, i), fs[i])
  }

  /** A control frame whose handler, or whose own content, makes advanceFrame return an error; a close frame always does. */
  predicate Refused(cfg: Config, f: Frame) {
    f.Control() && HandleControl(cfg, f.opcode, f.payload).Failed?
  }

  /** advanceFrame, called again and again: the number of frames it accepted, and the state it was left in. */
  function Walk(cfg: Config, st: State, input: bytes, n: nat): (nat, Option<ReadError>, State)
    decreases n
  {
    if n == 0 then (0, None, st)
    else
      var (o, st1, input1) := Advance(cfg, st, input);
      match o
      case Failed(e) => (0, Some(e), st1)
      case Got(_) =>
        var (k, e, st2) := Walk(cfg, st1, input1, n - 1);
        (k + 1, e, st2)
  }

  function DataLength(fs: seq<Frame>): nat {
    if fs == [] then 0 else (if fs[0].Control() then 0 else |fs[0].payload|) + DataLength(fs[1..])
  }

  /** One more frame of the sequence opens a message, closes it, or leaves that as it was. */
  lemma OpenAfterNext(fs: seq<Frame>, i: nat)
    requires i < |fs|
    ensures OpenAfter(fs, i + 1) == if fs[i].Control() then OpenAfter(fs, i) else !fs[i].fin
  {
    if fs[i].Control() {
      if OpenAfter(fs, i) {
        var j :| 0 <= j < i && !fs[j].Control() && !fs[j].fin && ControlsOnly(fs, j + 1, i);
        assert ControlsOnly(fs, j + 1, i + 1);
      }
      if OpenAfter(fs, i + 1) {
        var j :| 0 <= j < i + 1 && !fs[j].Control() && !fs[j].fin && ControlsOnly(fs, j + 1, i + 1);
        assert ControlsOnly(fs, j + 1, i);
      }
    } else if !fs[i].fin {
      assert ControlsOnly(fs, i + 1, i + 1);
    }
  }

  /** The bytes of frames i and later, behind what is left of the body of frame i - 1. */
  function Wire(body: bytes, fs: seq<Frame>, i: nat): bytes
    requires i <= |fs| && AllWellFormed(fs)
  {
    body + EncodeAll(fs[i..])
  }

  /** What the walk knows in front of frame i, with `body` left of the frame before it. */
  ghost predicate At(cfg: Config, st: State, body: bytes, fs: seq<Frame>, i: nat) {
    && i <= |fs| && AllWellFormed(fs) && Sized(fs)
    && !cfg.compression && st.remaining == |body|
    && 0 <= st.length && WithinLimit(cfg, st.length + DataLength(fs[i..]))
    && st.final == !OpenAfter(fs, i)
  }

  /** One call of advanceFrame in front of frame i. */
  lemma WalkStep(cfg: Config, st: State, body: bytes, fs: seq<Frame>, i: nat) returns (body': bytes)
    requires At(cfg, st, body, fs, i) && i < |fs|
    ensures var (o, st1, input1) := Advance(cfg, st, Wire(body, fs, i));
            if !Legal(cfg.isServer, OpenAfter(fs, i), fs[i]) then
              o.Failed? && o.error.ProtocolError?
            else if Refused(cfg, fs[i]) then
              o == HandleControl(cfg, fs[i].opcode, fs[i].payload)
            else
              o.Got? && At(cfg, st1, body', fs, i + 1) && input1 == Wire(body', fs, i + 1)
  {
    hide Advance, Encode, EncodeAll, HandleControl;
    var f := fs[i];
    var rest := EncodeAll(fs[i + 1..]);
    var st0 := st.(remaining := 0);
    WireStep(body, fs, i);
    AdvanceSkips(cfg, st, body, Encode(f) + rest);
    OpenAfterNext(fs, i);
    DataLengthStep(fs, i);
    body' := if f.Control() then [] else Body(f);
    if !Legal(cfg.isServer, OpenAfter(fs, i), f) {
      AdvanceIllegalFrame(cfg, st0, f, rest);
    } else if f.Control() {
      AdvanceControlFrame(cfg, st0, f, rest);
      assert Wire([], fs, i + 1) == rest;
    } else {
      AdvanceDataFrame(cfg, st0, f, rest);
    }
  }

  lemma DataLengthStep(fs: seq<Frame>, i: nat)
    requires i < |fs|
    ensures DataLength(fs[i..]) == (if fs[i].Control() then 0 else |fs[i].payload|) + DataLength(fs[i + 1..])
  {
    assert fs[i..][1..] == fs[i + 1..];
  }

  /** What stops the walk at f: it may not come there, or it is a control frame that is refused. */
  predicate StopsAt(cfg: Config, open: bool, f: Frame, e: ReadError) {
    if Legal(cfg.isServer, open, f) then Refused(cfg, f) && HandleControl(cfg, f.opcode, f.payload) == Failed(e)
    else e.ProtocolError?
  }

  /** None of the first n frames is refused. */
  predicate NoneRefused(cfg: Config, fs: seq<Frame>, n: nat)
    requires n <= |fs|
  {
    forall i :: 0 <= i < n ==> !Refused(cfg, fs[i])
  }

  /**
   From frame i on: the reader accepts the frames of the sequence up to the first
   one that may not come there or is refused; and readFinal tells at every frame
   whether a message is open.
   */
  lemma {:induction false} WalkFrom(cfg: Config, st: State, body: bytes, fs: seq<Frame>, i: nat, n: nat)
    requires At(cfg, st, body, fs, i) && i + n <= |fs| && Conforms(cfg.isServer, fs, i) && NoneRefused(cfg, fs, i)
    ensures var (k, e, st') := Walk(cfg, st, Wire(body, fs, i), n);
            && k <= n
            && Conforms(cfg.isServer, fs, i + k) && NoneRefused(cfg, fs, i + k)
            && (e == None <==> k == n)
            && (e == None ==> st'.final == !OpenAfter(fs, i + n))
            && (e != None ==> StopsAt(cfg, OpenAfter(fs, i + k), fs[i + k], e.value))
    decreases n
  {
    hide Advance, OpenAfter, Legal, Wire, HandleControl;
    if n > 0 {
      var body' := WalkStep(cfg, st, body, fs, i);
      var (o, st1, input1) := Advance(cfg, st, Wire(body, fs, i));
      if o.Got? {
        WalkFrom(cfg, st1, body', fs, i + 1, n - 1);
      }
    }
  }

  lemma WireStep(body: bytes, fs: seq<Frame>, i: nat)
    requires i < |fs| && AllWellFormed(fs)
    ensures AllWellFormed(fs[i..]) && AllWellFormed(fs[i + 1..])
    ensures Wire(body, fs, i) == body + (Encode(fs[i]) + EncodeAll(fs[i + 1..]))
  {
    assert fs[i..][1..] == fs[i + 1..];
  }

  /**
   The reader of a fresh connection accepts exactly the conforming frame sequences
   of which no control frame is refused, and otherwise exactly the frames before
   the first offending one: an illegal frame is a protocol error, and a refused
   control frame gives its own error.
   */
  lemma AcceptsGrammar(cfg: Config, fs: seq<Frame>)
    requires AllWellFormed(fs) && Sized(fs) && !cfg.compression
    requires WithinLimit(cfg, DataLength(fs))
    ensures var (k, e, st') := Walk(cfg, Start(), EncodeAll(fs), |fs|);
            && (e == None <==> Conforms(cfg.isServer, fs, |fs|) && NoneRefused(cfg, fs, |fs|))
            && (e == None ==> st'.final == !OpenAfter(fs, |fs|))
            && (e != None ==>
                && k < |fs| && Conforms(cfg.isServer, fs, k) && NoneRefused(cfg, fs, k)
                && StopsAt(cfg, OpenAfter(fs, k), fs[k], e.value))
  {
    hide *;
    AtStart(cfg, fs);
    WalkFrom(cfg, Start(), [], fs, 0, |fs|);
    var (k, e, st') := Walk(cfg, Start(), EncodeAll(fs), |fs|);
    if e != None {
      FirstOffence(cfg, fs, k, e.value);
    }
  }

  lemma AtStart(cfg: Config, fs: seq<Frame>)
    requires AllWellFormed(fs) && Sized(fs) && !cfg.compression && WithinLimit(cfg, DataLength(fs))
    ensures At(cfg, Start(), [], fs, 0) && Wire([], fs, 0) == EncodeAll(fs)
    ensures Conforms(cfg.isServer, fs, 0) && NoneRefused(cfg, fs, 0)
  {
    hide EncodeAll, AllWellFormed, Sized, WithinLimit, DataLength;
    assert fs[0..] == fs;
  }

  lemma FirstOffence(cfg: Config, fs: seq<Frame>, k: nat, e: ReadError)
    requires k < |fs| && StopsAt(cfg, OpenAfter(fs, k), fs[k], e)
    ensures !(Conforms(cfg.isServer, fs, |fs|) && NoneRefused(cfg, fs, |fs|))
  {
    hide HandleControl, Legal;
  }

  /** A close frame ends the walk, with the code and text it carries if they are good and the handler agrees. */
  lemma CloseStops(cfg: Config, open: bool, f: Frame, e: ReadError)
    requires f.WellFormed() && Legal(cfg.isServer, open, f) && f.opcode == CLOSE && StopsAt(cfg, open, f, e)
    ensures |f.payload| < 2 ==> e == if cfg.closeOk(NO_STATUS, []) then CloseReceived(NO_STATUS, []) else HandlerFailed
    ensures |f.payload| >= 2 ==>
      var code: nat := 256 * (f.payload[0] as int) + f.payload[1];
      var text := f.payload[2..];
      e == if !ValidCloseCode(code) then BadCloseCode(code)
           else if !cfg.utf8(text) then BadCloseText
           else if cfg.closeOk(code, text) then CloseReceived(code, text)
           else HandlerFailed
  {
    if |f.payload| >= 2 {
      assert f.payload[..2][..1] == [f.payload[0]];
      assert FromBigEndian([f.payload[0]]) == f.payload[0];
    }
  }

  /** What an application does with a connection: NextReader, or a Read of the current message. */
  datatype Call = Next | Fetch(size: nat, ready: nat)

  /** delivered: the bytes the application got from the current message. */
  datatype Session = Session(st: State, input: bytes, delivered: nat)

  function Step(cfg: Config, s: Session, call: Call): Session {
    match call
    case Next =>
      var (t, st, input) := NextReader(cfg, s.st, s.input);
      Session(st, input, 0)
    case Fetch(size, ready) =>
      var (r, st, input) := MessageReading.Read(cfg, s.st, s.input, size, ready);
      Session(st, input, s.delivered + if r.Data? then |r.p| else 0)
  }

  function Run(cfg: Config, s: Session, calls: seq<Call>): Session
    decreases |calls|
  {
    if calls == [] then s else Run(cfg, Step(cfg, s, calls[0]), calls[1..])
  }

  /** readLength is the exact length of the open message so far: what was delivered and what is left of its frame. */
  predicate Accounted(cfg: Config, s: Session) {
    && 0 <= s.st.remaining < INT64_LIMIT
    && (s.st.err == None ==> 0 <= s.st.length < INT64_LIMIT)
    && (s.st.err == None && s.st.open ==>
          s.delivered + s.st.remaining <= s.st.length && WithinLimit(cfg, s.st.length))
    && WithinLimit(cfg, s.delivered)
  }

  /** Step 5: the new length is the exact sum, or the frame is refused. */
  lemma KindCounts(cfg: Config, st: State, opcode: byte, input: bytes)
    requires 0 <= st.remaining < INT64_LIMIT && 0 <= st.length < INT64_LIMIT
    ensures Counted(cfg, st.length, AdvanceKind(cfg, st, opcode, input))
  {
    hide Int64, HandleControl;
    Int64Exact(st.length + st.remaining);
  }

  /** An accepted data frame is counted without wrapping, and within the limit; a control frame is not counted. */
  predicate Counted(cfg: Config, length: int, r: (Outcome, State, bytes)) {
    && 0 <= r.1.remaining < INT64_LIMIT
    && (r.0.Got? ==>
          if r.0.frameType == CONTINUATION || IsData(r.0.frameType) then
            r.1.length == length + r.1.remaining && WithinLimit(cfg, r.1.length)
          else
            r.1.remaining == 0 && r.1.length == length)
  }

  lemma LengthCounts(cfg: Config, st: State, opcode: byte, input: bytes)
    requires 0 <= st.remaining < 128 && 0 <= st.length < INT64_LIMIT
    ensures Counted(cfg, st.length, AdvanceLength(cfg, st, opcode, input))
  {
    hide AdvanceKind, Int64, Counted;
    var width := if st.remaining == 126 then 2 else if st.remaining == 127 then 8 else 0;
    if |input| >= width {
      var n := Int64(FromBigEndian(input[..width]));
      var st1 := if width == 0 then st else st.(remaining := n);
      var input1 := if width == 0 then input else input[width..];
      if st1.remaining >= 0 {
        MaskCounts(cfg, st1, opcode, input1);
      } else {
        FailureCounts(cfg, st.length, AdvanceLength(cfg, st, opcode, input));
      }
    } else {
      FailureCounts(cfg, st.length, AdvanceLength(cfg, st, opcode, input));
    }
  }

  lemma FailureCounts(cfg: Config, length: int, r: (Outcome, State, bytes))
    requires r.0.Failed? && 0 <= r.1.remaining < INT64_LIMIT
    ensures Counted(cfg, length, r)
  {
  }

  lemma MaskCounts(cfg: Config, st: State, opcode: byte, input: bytes)
    requires 0 <= st.remaining < INT64_LIMIT && 0 <= st.length < INT64_LIMIT
    ensures Counted(cfg, st.length, AdvanceMask(cfg, st, opcode, input))
  {
    hide AdvanceKind, Counted;
    if !cfg.isServer {
      KindCounts(cfg, st, opcode, input);
    } else if |input| < 4 {
      FailureCounts(cfg, st.length, AdvanceMask(cfg, st, opcode, input));
    } else {
      KindCounts(cfg, st.(maskPos := 0, maskKey := input[..4]), opcode, input[4..]);
    }
  }

  /** Whatever the network sends, advanceFrame never counts wrongly and never leaves a negative remainder. */
  lemma AdvanceCounts(cfg: Config, st: State, input: bytes)
    requires 0 <= st.remaining < INT64_LIMIT && 0 <= st.length < INT64_LIMIT
    ensures Counted(cfg, st.length, Advance(cfg, st, input))
  {
    hide AdvanceLength, Counted, Violations;
    var r := Advance(cfg, st, input);
    if st.remaining > |input| {
      FailureCounts(cfg, st.length, r);
    } else {
      var input1 := if st.remaining > 0 then input[st.remaining..] else input;
      if |input1| < 2 {
        FailureCounts(cfg, st.length, r);
      } else {
        var st1 := AfterTwoBytes(cfg, st, input1[0], input1[1]);
        if Violations(cfg, st.final, input1[0], input1[1]) != [] {
          FailureCounts(cfg, st.length, r);
        } else {
          LengthCounts(cfg, st1, input1[0] % 16, input1[2..]);
        }
      }
    }
  }

  lemma {:induction false} FindDataCounts(cfg: Config, st: State, input: bytes)
    requires st.err == None ==> 0 <= st.length < INT64_LIMIT
    requires 0 <= st.remaining < INT64_LIMIT && !st.open
    ensures var (t, st1, input1) := FindData(cfg, st, input);
            Accounted(cfg, Session(st1, input1, 0))
    decreases |input|
  {
    hide Advance;
    if st.err == None {
      AdvanceCounts(cfg, st, input);
      var (o, st1, input1) := Advance(cfg, st, input);
      if o.Got? && !IsData(o.frameType) {
        FindDataCounts(cfg, st1, input1);
      }
    }
  }

  lemma {:induction false} ReadLoopCounts(cfg: Config, st: State, input: bytes, size: nat, ready: nat, delivered: nat)
    requires Accounted(cfg, Session(st, input, delivered)) && st.open
    ensures var (r, st1, input1) := ReadLoop(cfg, st, input, size, ready);
            Accounted(cfg, Session(st1, input1, delivered + if r.Data? then |r.p| else 0))
    decreases |input|
  {
    hide Advance, Masked, HandleControl, Int64;
    if st.err == None && st.remaining == 0 && !st.final {
      AdvanceCounts(cfg, st, input);
      var (o, st1, input1) := Advance(cfg, st, input);
      if o.Got? && !IsData(o.frameType) {
        ReadLoopCounts(cfg, st1, input1, size, ready, delivered);
      }
    }
  }

  /**
   On any input and under any calls: what the application gets from one message
   never exceeds the read limit, the length is counted without wrap-around, and
   the remainder of a frame is never negative.
   */
  lemma {:induction false} RunAccounted(cfg: Config, s: Session, calls: seq<Call>)
    requires Accounted(cfg, s)
    ensures Accounted(cfg, Run(cfg, s, calls))
    decreases |calls|
  {
    if calls != [] {
      match calls[0] {
        case Next => FindDataCounts(cfg, s.st.(open := false, length := 0), s.input);
        case Fetch(size, ready) =>
          if s.st.open {
            ReadLoopCounts(cfg, s.st, s.input, size, ready, s.delivered);
          }
      }
      RunAccounted(cfg, Step(cfg, s, calls[0]), calls[1..]);
    }
  }

  /** So with a read limit no message of a new connection ever gives the application more bytes than that. */
  lemma DeliveredWithinLimit(cfg: Config, input: bytes, calls: seq<Call>)
    ensures cfg.limit > 0 ==> Run(cfg, Session(Start(), input, 0), calls).delivered <= cfg.limit
    ensures cfg.limit <= 0 ==> Run(cfg, Session(Start(), input, 0), calls).delivered < 0x8000_0000_0000_0000
  {
    hide Run, Start;
    FreshAccounted(cfg, input);
    RunAccounted(cfg, Session(Start(), input, 0), calls);
  }

  lemma FreshAccounted(cfg: Config, input: bytes)
    ensures Accounted(cfg, Session(Start(), input, 0))
  {
  }

  /** Once a call has failed, no later call of either kind takes a byte from the network or hands one out. */
  lemma {:induction false} ErrorIsFinal(cfg: Config, s: Session, calls: seq<Call>)
    requires s.st.err != None
    ensures var s' := Run(cfg, s, calls);
            s'.st.err == s.st.err && s'.input == s.input && s'.delivered <= s.delivered
    decreases |calls|
  {
    if calls != [] {
      ErrorIsFinal(cfg, Step(cfg, s, calls[0]), calls[1..]);
    }
  }
}
