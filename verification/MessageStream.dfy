/** Whole messages: what one endpoint writes, in any chunking, its peer reads back. */
module MessageStream {
  import opened Bytes
  import opened Masking
  import opened Frames
  import opened MessageReading
  import opened FrameDecoding
  import opened Options
  import opened Sequences

  /**
   fs are the frames from here to the end of one message, control frames in
   between (section 5.4); open: its first data frame has been seen already.
   */
  predicate Flow(isServer: bool, open: bool, fs: seq<Frame>)
    decreases |fs|
  {
    && fs != []
    && Legal(isServer, open, fs[0])
    && if fs[0].Control() then Flow(isServer, open, fs[1..])
       else if fs[0].fin then |fs| == 1
       else Flow(isServer, true, fs[1..])
  }

  function MessagePayload(fs: seq<Frame>): bytes {
    if fs == [] then []
    else (if fs[0].Control() then [] else fs[0].payload) + MessagePayload(fs[1..])
  }

  /** Control frames are pings and pongs whose handlers return nil. */
  predicate HandlersAgree(cfg: Config, fs: seq<Frame>) {
    forall i :: 0 <= i < |fs| && fs[i].Control() ==>
      HandleControl(cfg, fs[i].opcode, fs[i].payload) == Got(fs[i].opcode)
  }

  predicate Sized(fs: seq<Frame>) {
    forall i :: 0 <= i < |fs| ==> fs[i].WellFormed() && |fs[i].payload| < INT64_LIMIT
  }

  /** What cur looks like on the wire to a reader whose mask position is maskPos. */
  function OnWire(isServer: bool, st: State, cur: bytes): (s: bytes)
    ensures |s| == |cur|
  {
    if isServer then Masked(st.maskKey, st.maskPos, cur) else cur
  }

  /** In the middle of a message: cur is left of the current frame, fs are the frames to come. */
  ghost predicate Inside(cfg: Config, st: State, input: bytes, cur: bytes, fs: seq<Frame>, tail: bytes) {
    && !cfg.compression
    && st.err == None && st.open
    && st.remaining == |cur|
    && Sized(fs) && AllWellFormed(fs) && HandlersAgree(cfg, fs)
    && input == OnWire(cfg.isServer, st, cur) + (EncodeAll(fs) + tail)
    && (if st.final then fs == [] else Flow(cfg.isServer, true, fs))
    && 0 <= st.length
    && WithinLimit(cfg, st.length)
  }

  /** The length of the whole message, as the reader will have counted it at its end. */
  function Total(st: State, fs: seq<Frame>): int {
    st.length + |MessagePayload(fs)|
  }

  /** No message is being received, and nothing is left of the last one. */
  predicate Idle(st: State) {
    st.err == None && st.remaining == 0 && st.final
  }

  lemma MessagePayloadStep(fs: seq<Frame>)
    requires fs != []
    ensures MessagePayload(fs) == (if fs[0].Control() then [] else fs[0].payload) + MessagePayload(fs[1..])
    ensures fs[0].Control() ==> MessagePayload(fs) == MessagePayload(fs[1..])
  {
  }

  lemma EncodeAllStep(fs: seq<Frame>, tail: bytes)
    requires AllWellFormed(fs) && fs != []
    ensures AllWellFormed(fs[1..])
    ensures EncodeAll(fs) + tail == Encode(fs[0]) + (EncodeAll(fs[1..]) + tail)
  {
    Assoc(Encode(fs[0]), EncodeAll(fs[1..]), tail);
  }

  lemma TailOf(cfg: Config, fs: seq<Frame>)
    requires Sized(fs) && HandlersAgree(cfg, fs) && fs != []
    ensures Sized(fs[1..]) && HandlersAgree(cfg, fs[1..])
    ensures fs[0].Control() ==> HandleControl(cfg, fs[0].opcode, fs[0].payload) == Got(fs[0].opcode)
    ensures fs[0].WellFormed() && |fs[0].payload| < INT64_LIMIT
  {
  }

  /** A control frame between the fragments is consumed and changes nothing else. */
  lemma InsideControl(cfg: Config, st: State, input: bytes, fs: seq<Frame>, tail: bytes)
    requires Inside(cfg, st, input, [], fs, tail) && !st.final && fs[0].Control()
    ensures var r := Advance(cfg, st, input);
            && r.0 == Got(fs[0].opcode)
            && Inside(cfg, r.1, r.2, [], fs[1..], tail)
            && Total(r.1, fs[1..]) == Total(st, fs)
  {
    hide Advance, Encode, Legal;
    EncodeAllStep(fs, tail);
    TailOf(cfg, fs);
    assert input == EncodeAll(fs) + tail;
    AdvanceControlFrame(cfg, st, fs[0], EncodeAll(fs[1..]) + tail);
    MessagePayloadStep(fs);
    var r := Advance(cfg, st, input);
    assert OnWire(cfg.isServer, r.1, []) == [];
    assert r.2 == [] + r.2;
  }

  /** A continuation is opened, with its whole payload left to read, unless it takes the message over the limit. */
  lemma InsideContinuation(cfg: Config, st: State, input: bytes, fs: seq<Frame>, tail: bytes)
    requires Inside(cfg, st, input, [], fs, tail) && !st.final && !fs[0].Control()
    ensures var r := Advance(cfg, st, input);
            if WithinLimit(cfg, st.length + |fs[0].payload|) then
              && r.0 == Got(CONTINUATION)
              && Inside(cfg, r.1, r.2, fs[0].payload, fs[1..], tail)
              && Total(r.1, fs[1..]) == Total(st, fs)
            else
              r.0 == Failed(LimitExceeded) && r.1.err == None && !WithinLimit(cfg, Total(st, fs))
  {
    hide Advance, Encode;
    EncodeAllStep(fs, tail);
    TailOf(cfg, fs);
    assert input == EncodeAll(fs) + tail;
    MessagePayloadStep(fs);
    AdvanceDataFrame(cfg, st, fs[0], EncodeAll(fs[1..]) + tail);
  }

  /** The end of the message: nothing is left of it, the reader is idle, and what follows is untouched. */
  ghost predicate Ended(st: State, input: bytes, tail: bytes) {
    Idle(st) && !st.open && input == tail
  }

  /** The message went over the limit; its reader is still the open one, so that every further Read fails. */
  predicate PastLimit(st: State) {
    st.err == Some(LimitExceeded) && st.open
  }

  /**
   One Read in the middle of a message: it delivers the next bytes, some if the
   caller has room and the network has bytes; or it reports the end, exactly when
   nothing is left; or it fails, because the message is over the limit.
   */
  lemma {:induction false} ReadInside(cfg: Config, st: State, input: bytes, cur: bytes, fs: seq<Frame>, tail: bytes,
                                      size: nat, ready: nat)
      returns (cur': bytes, fs': seq<Frame>)
    requires Inside(cfg, st, input, cur, fs, tail)
    ensures var (res, st', input') := ReadLoop(cfg, st, input, size, ready);
            match res
            case Data(p) =>
              && Inside(cfg, st', input', cur', fs', tail)
              && Total(st', fs') == Total(st, fs)
              && cur + MessagePayload(fs) == p + (cur' + MessagePayload(fs'))
              && (size > 0 && ready > 0 ==> p != [])
            case End => Ended(st', input', tail) && cur + MessagePayload(fs) == [] && WithinLimit(cfg, Total(st, fs))
            case Error(e) => e == LimitExceeded && PastLimit(st') && !WithinLimit(cfg, Total(st, fs))
    decreases |fs|
  {
    if cur != [] {
      fs' := fs;
      cur' := TakeInside(cfg, st, input, cur, fs, tail, size, ready);
    } else if st.final {
      cur', fs' := [], [];
      assert input == [] + ([] + tail) == tail;
    } else if fs[0].Control() {
      InsideControl(cfg, st, input, fs, tail);
      MessagePayloadStep(fs);
      var (o, st1, input1) := Advance(cfg, st, input);
      ReadLoopStep(cfg, st, input, size, ready);
      cur', fs' := ReadInside(cfg, st1, input1, [], fs[1..], tail, size, ready);
    } else {
      InsideContinuation(cfg, st, input, fs, tail);
      MessagePayloadStep(fs);
      var (o, st1, input1) := Advance(cfg, st, input);
      ReadLoopStep(cfg, st, input, size, ready);
      if o.Failed? {
        return [], [];
      }
      cur', fs' := ReadInside(cfg, st1, input1, fs[0].payload, fs[1..], tail, size, ready);
    }
  }

  lemma ReadLoopStep(cfg: Config, st: State, input: bytes, size: nat, ready: nat)
    requires st.err == None && st.remaining == 0 && !st.final
    ensures var (o, st1, input1) := Advance(cfg, st, input);
            && (o.Got? && !IsData(o.frameType) ==>
                 ReadLoop(cfg, st, input, size, ready) == ReadLoop(cfg, st1, input1, size, ready))
            && (o == Failed(LimitExceeded) ==>
                 ReadLoop(cfg, st, input, size, ready) == (Error(LimitExceeded), st1.(err := Some(LimitExceeded)), input1))
  {
  }

  /** The part of ReadInside that moves payload bytes. */
  lemma TakeInside(cfg: Config, st: State, input: bytes, cur: bytes, fs: seq<Frame>, tail: bytes,
                   size: nat, ready: nat) returns (cur': bytes)
    requires Inside(cfg, st, input, cur, fs, tail) && cur != []
    ensures var (res, st', input') := ReadPayload(cfg, st, input, size, ready);
            && res.Data?
            && Inside(cfg, st', input', cur', fs, tail)
            && st'.length == st.length
            && cur + MessagePayload(fs) == res.p + (cur' + MessagePayload(fs))
            && (size > 0 && ready > 0 ==> res.p != [])
  {
    hide EncodeAll, Flow, MessagePayload, HandlersAgree, Sized, AllWellFormed, WithinLimit, ReadPayload;
    var n := TakeWire(cfg, st, cur, EncodeAll(fs) + tail, size, ready);
    cur' := cur[n..];
    assert cur == cur[..n] + cur';
    Assoc(cur[..n], cur', MessagePayload(fs));
  }

  lemma TakeWire(cfg: Config, st: State, cur: bytes, rest: bytes, size: nat, ready: nat) returns (n: nat)
    requires st.err == None && st.remaining == |cur| > 0
    ensures n <= |cur| && (size > 0 && ready > 0 ==> n > 0)
    ensures var (res, st', input') := ReadPayload(cfg, st, OnWire(cfg.isServer, st, cur) + rest, size, ready);
            && res == Data(cur[..n])
            && st' == st.(remaining := |cur| - n, maskPos := if cfg.isServer then (st.maskPos + n) % 4 else st.maskPos)
            && input' == OnWire(cfg.isServer, st', cur[n..]) + rest
  {
    hide Masked, OnWire;
    n := Min3(if size > st.remaining then st.remaining else size, |OnWire(cfg.isServer, st, cur) + rest|, ready);
    WireSplit(cfg.isServer, st, cur, n, rest);
    OnWireIs(cfg.isServer, st, (OnWire(cfg.isServer, st, cur) + rest)[..n]);
    var st1 := st.(maskPos := if cfg.isServer then (st.maskPos + n) % 4 else st.maskPos);
    OnWireIs(cfg.isServer, st1, cur[n..]);
    OnWireIs(cfg.isServer, st1.(remaining := |cur| - n), cur[n..]);
  }

  lemma OnWireIs(isServer: bool, st: State, s: bytes)
    ensures OnWire(isServer, st, s) == if isServer then Masked(st.maskKey, st.maskPos, s) else s
  {
  }

  lemma WireSplit(isServer: bool, st: State, cur: bytes, n: nat, rest: bytes)
    requires n <= |cur|
    ensures var input := OnWire(isServer, st, cur) + rest;
            && input[..n] == OnWire(isServer, st, cur[..n])
            && OnWire(isServer, st, input[..n]) == cur[..n]
            && input[n..] == OnWire(isServer, st.(maskPos := if isServer then (st.maskPos + n) % 4 else st.maskPos), cur[n..]) + rest
  {
    var st' := st.(maskPos := if isServer then (st.maskPos + n) % 4 else st.maskPos);
    var a, b := OnWire(isServer, st, cur[..n]), OnWire(isServer, st', cur[n..]);
    WireHalves(isServer, st, cur, n);
    hide OnWire;
    Assoc(a, b, rest);
    assert (a + (b + rest))[..n] == a && (a + (b + rest))[n..] == b + rest;
  }

  lemma WireHalves(isServer: bool, st: State, cur: bytes, n: nat)
    requires n <= |cur|
    ensures var st' := st.(maskPos := if isServer then (st.maskPos + n) % 4 else st.maskPos);
            OnWire(isServer, st, cur) == OnWire(isServer, st, cur[..n]) + OnWire(isServer, st', cur[n..])
    ensures OnWire(isServer, st, OnWire(isServer, st, cur[..n])) == cur[..n]
  {
    hide Masked;
    assert cur == cur[..n] + cur[n..];
    if isServer {
      MaskedPieces(st.maskKey, st.maskPos, cur[..n], cur[n..]);
      MaskedModulo(st.maskKey, st.maskPos + n, cur[n..]);
      MaskedTwice(st.maskKey, st.maskPos, cur[..n]);
    }
  }

  /** The bytes got by a run of Reads, each with the caller's room and what the network has ready. */
  datatype Request = Request(size: nat, ready: nat)
  datatype ReadRun = ReadRun(data: bytes, ended: bool, failed: bool, st: State, input: bytes)

  function Reads(cfg: Config, st: State, input: bytes, reqs: seq<Request>): ReadRun
    decreases |reqs|
  {
    if reqs == [] then ReadRun([], false, false, st, input)
    else
      var (res, st1, input1) := MessageReading.Read(cfg, st, input, reqs[0].size, reqs[0].ready);
      match res
      case Data(p) =>
        var run := Reads(cfg, st1, input1, reqs[1..]);
        run.(data := p + run.data)
      case End => ReadRun([], true, false, st1, input1)
      case Error(_) => ReadRun([], false, true, st1, input1)
  }

  /** Every Read asks for at least a byte, and the network has one at hand. */
  predicate Progressing(reqs: seq<Request>) {
    forall i :: 0 <= i < |reqs| ==> reqs[i].size > 0 && reqs[i].ready > 0
  }

  /**
   However the reads are cut, together they give the message from its start on;
   they report the end only when all of it was delivered; they fail only, and
   never reach the end, when it is over the limit; and one or the other happens
   within as many progressing reads as there are bytes left, plus one.
   */
  lemma {:induction false} ReadsInside(cfg: Config, st: State, input: bytes, cur: bytes, fs: seq<Frame>, tail: bytes,
                                       reqs: seq<Request>)
    requires Inside(cfg, st, input, cur, fs, tail)
    ensures var run := Reads(cfg, st, input, reqs);
            var payload := cur + MessagePayload(fs);
            && run.data <= payload
            && (run.failed ==> PastLimit(run.st) && !WithinLimit(cfg, Total(st, fs)))
            && (run.ended ==> run.data == payload && Ended(run.st, run.input, tail) && WithinLimit(cfg, Total(st, fs)))
            && (Progressing(reqs) && |reqs| > |payload| ==> run.ended || run.failed)
    decreases |reqs|
  {
    if reqs != [] {
      var cur', fs' := ReadInside(cfg, st, input, cur, fs, tail, reqs[0].size, reqs[0].ready);
      var (res, st1, input1) := ReadLoop(cfg, st, input, reqs[0].size, reqs[0].ready);
      if res.Data? {
        ReadsInside(cfg, st1, input1, cur', fs', tail, reqs[1..]);
        assert Progressing(reqs) ==> Progressing(reqs[1..]);
        var rest := Reads(cfg, st1, input1, reqs[1..]);
        hide *;
        PrefixBehind(res.p, rest.data, cur' + MessagePayload(fs'));
      }
    }
  }

  lemma PrefixBehind(p: bytes, a: bytes, b: bytes)
    requires a <= b
    ensures p + a <= p + b
  {
    assert b == a + b[|a|..];
    Assoc(p, a, b[|a|..]);
  }
}
