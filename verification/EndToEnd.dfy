/** From the calls on a message writer to the bytes read by the peer. */
module EndToEnd {
  import opened Bytes
  import opened Masking
  import opened Frames
  import opened MessageWriting
  import opened MessageReading
  import opened FrameDecoding
  import opened MessageStream
  import opened Options
  import opened Sequences

  /** The type of the message that starts here. */
  function FirstType(fs: seq<Frame>): byte
    requires fs != []
  {
    if fs[0].Control() && |fs| > 1 then FirstType(fs[1..]) else fs[0].opcode
  }

  /**
   What is left of the message that is being received: body is left of the current
   frame, fs are the frames to come. Nothing is left when the reader is idle.
   */
  ghost predicate Left(cfg: Config, st: State, body: bytes, fs: seq<Frame>) {
    && !cfg.compression && st.err == None && st.remaining == |body|
    && Sized(fs) && AllWellFormed(fs) && HandlersAgree(cfg, fs)
    && if st.final then fs == [] else Flow(cfg.isServer, true, fs)
  }

  lemma IdleLeft(cfg: Config, st: State)
    requires Idle(st) && !cfg.compression
    ensures Left(cfg, st, [], [])
  {
  }

  /** gs are the frames of a message that starts here. */
  ghost predicate Message(cfg: Config, gs: seq<Frame>) {
    Sized(gs) && AllWellFormed(gs) && HandlersAgree(cfg, gs) && Flow(cfg.isServer, false, gs)
  }

  /** What is left of a frame is skipped in front of the next. */
  lemma NextFrame(cfg: Config, st: State, body: bytes, f: Frame, rest: bytes)
    requires st.err == None && st.remaining == |body| && f.WellFormed()
    ensures Advance(cfg, st, body + (Encode(f) + rest)) == Advance(cfg, st.(remaining := 0), Encode(f) + rest)
  {
    hide Encode, Advance;
    AdvanceSkips(cfg, st, body, Encode(f) + rest);
  }

  lemma FindDataStep(cfg: Config, st: State, input: bytes)
    requires st.err == None
    ensures var (o, st1, input1) := Advance(cfg, st, input);
            match o
            case Failed(e) => FindData(cfg, st, input) == (None, st1.(err := Some(e)), input1)
            case Got(t) =>
              FindData(cfg, st, input)
                == (if IsData(t) then (Some(t), st1.(open := true), input1) else FindData(cfg, st1, input1))
  {
  }

  /** What FindData has to come to: the type of gs with the reader inside it, or the limit. */
  ghost predicate Finds(cfg: Config, r: (Option<byte>, State, bytes), counted: int, gs: seq<Frame>, tail: bytes,
                        cur: bytes, gs': seq<Frame>)
    requires gs != []
  {
    if r.0 == None then
      r.1.err == Some(LimitExceeded) && !WithinLimit(cfg, counted)
    else
      && r.0 == Some(FirstType(gs))
      && Inside(cfg, r.1, r.2, cur, gs', tail)
      && cur + MessagePayload(gs') == MessagePayload(gs)
      && Total(r.1, gs') == counted
      && (!gs[0].Control() ==> cur == gs[0].payload && gs' == gs[1..])
  }

  /** A control frame in front is handled and passed over. */
  lemma PassControl(cfg: Config, st: State, body: bytes, f: Frame, rest: bytes)
    requires !cfg.compression && st.err == None && st.remaining == |body| && f.WellFormed()
    requires f.Control() && Legal(cfg.isServer, !st.final, f)
    requires HandleControl(cfg, f.opcode, f.payload) == Got(f.opcode)
    ensures var input := body + (Encode(f) + rest);
            var st1 := Advance(cfg, st, input).1;
            && FindData(cfg, st, input) == FindData(cfg, st1, rest)
            && st1.err == None && st1.remaining == 0 && st1.final == st.final && st1.length == st.length
  {
    hide Encode, Advance, FindData;
    NextFrame(cfg, st, body, f, rest);
    AdvanceControlFrame(cfg, st.(remaining := 0), f, rest);
    FindDataStep(cfg, st, body + (Encode(f) + rest));
  }

  /** A continuation of the message that is not read any more is counted and passed over. */
  lemma PassContinuation(cfg: Config, st: State, body: bytes, f: Frame, rest: bytes)
    requires !cfg.compression && st.err == None && st.remaining == |body| && f.WellFormed() && |f.payload| < INT64_LIMIT
    requires f.opcode == CONTINUATION && Legal(cfg.isServer, !st.final, f)
    requires 0 <= st.length < INT64_LIMIT
    ensures var input := body + (Encode(f) + rest);
            var (o, st1, input1) := Advance(cfg, st, input);
            if WithinLimit(cfg, st.length + |f.payload|) then
              && FindData(cfg, st, input) == FindData(cfg, st1, Body(f) + rest)
              && st1.err == None && st1.remaining == |Body(f)| && st1.final == f.fin
              && st1.length == st.length + |f.payload|
            else
              FindData(cfg, st, input).0 == None && FindData(cfg, st, input).1.err == Some(LimitExceeded)
  {
    hide Encode, Advance, FindData;
    NextFrame(cfg, st, body, f, rest);
    AdvanceDataFrame(cfg, st.(remaining := 0), f, rest);
    FindDataStep(cfg, st, body + (Encode(f) + rest));
  }

  /** A data frame is opened, its whole payload left to read, unless it takes the count over the limit. */
  lemma OpensFrame(cfg: Config, st: State, body: bytes, f: Frame, rest: bytes)
    requires !cfg.compression && st.err == None && st.remaining == |body| && f.WellFormed() && |f.payload| < INT64_LIMIT
    requires IsData(f.opcode) && Legal(cfg.isServer, !st.final, f)
    requires 0 <= st.length < INT64_LIMIT
    ensures var r := FindData(cfg, st, body + (Encode(f) + rest));
            if WithinLimit(cfg, st.length + |f.payload|) then
              && r.0 == Some(f.opcode)
              && r.1.err == None && r.1.open && r.1.remaining == |f.payload| && r.1.final == f.fin
              && r.1.length == st.length + |f.payload|
              && r.2 == OnWire(cfg.isServer, r.1, f.payload) + rest
            else
              r.0 == None && r.1.err == Some(LimitExceeded)
  {
    hide Encode, Advance, FindData, Masked;
    NextFrame(cfg, st, body, f, rest);
    AdvanceDataFrame(cfg, st.(remaining := 0), f, rest);
    FindDataStep(cfg, st, body + (Encode(f) + rest));
  }

  lemma FirstFrame(cfg: Config, open: bool, gs: seq<Frame>)
    requires Sized(gs) && AllWellFormed(gs) && HandlersAgree(cfg, gs) && Flow(cfg.isServer, open, gs)
    ensures gs != [] && gs[0].WellFormed() && |gs[0].payload| < INT64_LIMIT && Legal(cfg.isServer, open, gs[0])
    ensures Sized(gs[1..]) && AllWellFormed(gs[1..]) && HandlersAgree(cfg, gs[1..])
    ensures gs[0].Control() ==> HandleControl(cfg, gs[0].opcode, gs[0].payload) == Got(gs[0].opcode)
    ensures if gs[0].Control() then Flow(cfg.isServer, open, gs[1..])
            else if gs[0].fin then gs[1..] == []
            else Flow(cfg.isServer, true, gs[1..])
    ensures MessagePayload(gs) == (if gs[0].Control() then [] else gs[0].payload) + MessagePayload(gs[1..])
    ensures forall tail :: EncodeAll(gs) + tail == Encode(gs[0]) + (EncodeAll(gs[1..]) + tail)
  {
    TailOf(cfg, gs);
    MessagePayloadStep(gs);
    forall tail {
      EncodeAllStep(gs, tail);
    }
  }

  /** The first data frame of the message is found. */
  lemma OpensMessage(cfg: Config, st: State, body: bytes, gs: seq<Frame>, tail: bytes)
    requires Left(cfg, st, body, []) && st.final && 0 <= st.length < INT64_LIMIT
    requires Message(cfg, gs) && !gs[0].Control()
    ensures Finds(cfg, FindData(cfg, st, body + (EncodeAll(gs) + tail)), st.length + |MessagePayload(gs)|, gs, tail,
                  gs[0].payload, gs[1..])
  {
    hide Encode, EncodeAll, FindData, MessagePayload, OnWire, WithinLimit, Sized, AllWellFormed, HandlersAgree, Flow;
    FirstFrame(cfg, false, gs);
    OverLimit(cfg, st.length + |gs[0].payload|, |MessagePayload(gs[1..])|);
    OpensFrame(cfg, st, body, gs[0], EncodeAll(gs[1..]) + tail);
  }

  /** What is left of a message is skipped by the loop of NextReader, its frames being counted; or the limit trips. */
  lemma {:induction false} SkipsLeft(cfg: Config, st: State, body: bytes, fs: seq<Frame>, next: bytes)
      returns (st': State, body': bytes)
    requires Left(cfg, st, body, fs) && 0 <= st.length && WithinLimit(cfg, st.length)
    ensures var r := FindData(cfg, st, body + (EncodeAll(fs) + next));
            var counted := st.length + |MessagePayload(fs)|;
            if WithinLimit(cfg, counted) then
              && r == FindData(cfg, st', body' + next)
              && Left(cfg, st', body', []) && st'.final && st'.length == counted
            else
              r.0 == None && r.1.err == Some(LimitExceeded)
    decreases |fs|
  {
    hide FindData, Encode, EncodeAll, Advance, HandleControl, WithinLimit, Legal, Sized, AllWellFormed, HandlersAgree, Flow,
      MessagePayload, Body;
    InLimit(cfg, st.length);
    if fs == [] {
      EmptyLeft(cfg, next);
      st', body' := st, body;
    } else {
      FirstFrame(cfg, true, fs);
      var rest := EncodeAll(fs[1..]) + next;
      var st1 := Advance(cfg, st, body + (Encode(fs[0]) + rest)).1;
      if fs[0].Control() {
        PassControl(cfg, st, body, fs[0], rest);
        st', body' := SkipsLeft(cfg, st1, [], fs[1..], next);
        assert [] + rest == rest;
      } else {
        PassContinuation(cfg, st, body, fs[0], rest);
        OverLimit(cfg, st.length + |fs[0].payload|, |MessagePayload(fs[1..])|);
        if WithinLimit(cfg, st.length + |fs[0].payload|) {
          st', body' := SkipsLeft(cfg, st1, Body(fs[0]), fs[1..], next);
        } else {
          st', body' := st, body;
        }
      }
    }
  }

  lemma EmptyLeft(cfg: Config, next: bytes)
    ensures EncodeAll([]) + next == next && MessagePayload([]) == []
    ensures Sized([]) && AllWellFormed([]) && HandlersAgree(cfg, []) && !Flow(cfg.isServer, true, [])
  {
  }

  /** With nothing left to skip the message behind it is found, control frames in front of it being handled. */
  lemma {:induction false} FindsMessage(cfg: Config, st: State, body: bytes, gs: seq<Frame>, tail: bytes)
      returns (cur: bytes, gs': seq<Frame>)
    requires Left(cfg, st, body, []) && st.final && 0 <= st.length < INT64_LIMIT
    requires Message(cfg, gs)
    ensures Finds(cfg, FindData(cfg, st, body + (EncodeAll(gs) + tail)), st.length + |MessagePayload(gs)|, gs, tail, cur, gs')
    decreases |gs|
  {
    hide FindData, Encode, EncodeAll, Advance, HandleControl, WithinLimit, Legal, Sized, AllWellFormed, HandlersAgree, Flow,
      MessagePayload, Inside;
    FirstFrame(cfg, false, gs);
    if gs[0].Control() {
      var rest := EncodeAll(gs[1..]) + tail;
      PassControl(cfg, st, body, gs[0], rest);
      var st1 := Advance(cfg, st, body + (Encode(gs[0]) + rest)).1;
      cur, gs' := FindsMessage(cfg, st1, [], gs[1..], tail);
      assert [] + rest == rest;
    } else {
      OpensMessage(cfg, st, body, gs, tail);
      cur, gs' := gs[0].payload, gs[1..];
    }
  }

  /**
   The loop of NextReader with a message half read: what is left of it is skipped,
   its frames being counted, and the next message is found; or the limit trips.
   */
  lemma FindsNext(cfg: Config, st: State, body: bytes, fs: seq<Frame>, gs: seq<Frame>, tail: bytes)
      returns (cur: bytes, gs': seq<Frame>)
    requires Left(cfg, st, body, fs) && 0 <= st.length && WithinLimit(cfg, st.length)
    requires Message(cfg, gs)
    ensures Finds(cfg, FindData(cfg, st, body + (EncodeAll(fs) + (EncodeAll(gs) + tail))),
                  st.length + |MessagePayload(fs)| + |MessagePayload(gs)|, gs, tail, cur, gs')
  {
    hide FindData, EncodeAll, WithinLimit, Left, Sized, AllWellFormed, HandlersAgree, MessagePayload, Inside;
    var counted := st.length + |MessagePayload(fs)|;
    OverLimit(cfg, counted, |MessagePayload(gs)|);
    var st1, body1 := SkipsLeft(cfg, st, body, fs, EncodeAll(gs) + tail);
    if WithinLimit(cfg, counted) {
      InLimit(cfg, counted);
      cur, gs' := FindsMessage(cfg, st1, body1, gs, tail);
    } else {
      cur, gs' := [], [];
    }
  }

  lemma OverLimit(cfg: Config, length: int, more: nat)
    ensures !WithinLimit(cfg, length) ==> !WithinLimit(cfg, length + more)
  {
  }

  lemma InLimit(cfg: Config, length: int)
    ensures WithinLimit(cfg, length) ==> length < INT64_LIMIT
  {
  }

  /** What a run of NextReader and Reads makes of a message: all of it exactly if so much is within the limit. */
  ghost predicate ReadsMessage(cfg: Config, st: State, input: bytes, counted: nat, messageType: byte, payload: bytes,
                               tail: bytes, reqs: seq<Request>)
  {
    var (t, st1, input1) := NextReader(cfg, st, input);
    var run := Reads(cfg, st1, input1, reqs);
    && (WithinLimit(cfg, counted) ==> t == Some(messageType) && !run.failed && run.data <= payload)
    && (t != None && run.ended ==> t == Some(messageType) && run.data == payload && Ended(run.st, run.input, tail))
    && (t != None && run.ended ==> WithinLimit(cfg, counted))
    && (Progressing(reqs) && |reqs| > |payload| ==> (t != None && run.ended <==> WithinLimit(cfg, counted)))
  }

  /**
   A conforming message gs, whatever control frames are interleaved and however it
   is read, behind what is left of a message that was read only in part or of none:
   its type, its payload to the last byte and its end come out, the reader being
   idle again in front of what follows, exactly if the skipped frames and the
   message together are within the limit.
   */
  lemma MessageIsRead(cfg: Config, st: State, body: bytes, fs: seq<Frame>, gs: seq<Frame>, tail: bytes, reqs: seq<Request>)
    requires Left(cfg, st, body, fs) && Message(cfg, gs)
    ensures ReadsMessage(cfg, st, body + (EncodeAll(fs) + (EncodeAll(gs) + tail)),
                         |MessagePayload(fs)| + |MessagePayload(gs)|, FirstType(gs), MessagePayload(gs), tail, reqs)
  {
    hide FindData, Inside, Reads, EncodeAll, MessagePayload, Flow, Sized, AllWellFormed, HandlersAgree;
    var cur, gs' := FindsNext(cfg, st.(open := false, length := 0), body, fs, gs, tail);
    var input := body + (EncodeAll(fs) + (EncodeAll(gs) + tail));
    var (t, st1, input1) := NextReader(cfg, st, input);
    if t != None {
      ReadsInside(cfg, st1, input1, cur, gs', tail, reqs);
    }
  }

  /** The same from the middle of a message that the application has read in part: cur and fs are left of it. */
  lemma UnfinishedIsSkipped(cfg: Config, st: State, input: bytes, cur: bytes, fs: seq<Frame>, gs: seq<Frame>, tail: bytes,
                            reqs: seq<Request>)
    requires Message(cfg, gs) && Inside(cfg, st, input, cur, fs, EncodeAll(gs) + tail)
    ensures ReadsMessage(cfg, st, input, |MessagePayload(fs)| + |MessagePayload(gs)|, FirstType(gs), MessagePayload(gs),
                         tail, reqs)
  {
    hide EncodeAll, MessagePayload, Flow, Sized, AllWellFormed, HandlersAgree, ReadsMessage, OnWire, FirstType;
    MessageIsRead(cfg, st, OnWire(cfg.isServer, st, cur), fs, gs, tail, reqs);
  }

  // ----- The end of a writer ends the reader -----

  /** What endMessage of a message writer does to the reading side of the same Conn. */
  function EndedByWriter(st: State): State {
    st.(open := false)
  }

  /** Reads that came neither to the end nor to an error leave the reader inside the message: cur' and fs' are missing. */
  lemma {:induction false} ReadsLeave(cfg: Config, st: State, input: bytes, cur: bytes, fs: seq<Frame>, tail: bytes,
                                      reqs: seq<Request>)
      returns (cur': bytes, fs': seq<Frame>)
    requires Inside(cfg, st, input, cur, fs, tail)
    requires var run := Reads(cfg, st, input, reqs); !run.ended && !run.failed
    ensures var run := Reads(cfg, st, input, reqs);
            && Inside(cfg, run.st, run.input, cur', fs', tail)
            && run.data + (cur' + MessagePayload(fs')) == cur + MessagePayload(fs)
    decreases |reqs|
  {
    if reqs == [] {
      cur', fs' := cur, fs;
      assert [] + (cur + MessagePayload(fs)) == cur + MessagePayload(fs);
    } else {
      hide Inside, ReadLoop, MessagePayload;
      var cur1, fs1 := ReadInside(cfg, st, input, cur, fs, tail, reqs[0].size, reqs[0].ready);
      OpenInside(cfg, st, input, cur, fs, tail);
      var (res, st1, input1) := ReadLoop(cfg, st, input, reqs[0].size, reqs[0].ready);
      cur', fs' := ReadsLeave(cfg, st1, input1, cur1, fs1, tail, reqs[1..]);
      var rest := Reads(cfg, st1, input1, reqs[1..]);
      Assoc(res.p, rest.data, cur' + MessagePayload(fs'));
    }
  }

  lemma OpenInside(cfg: Config, st: State, input: bytes, cur: bytes, fs: seq<Frame>, tail: bytes)
    requires Inside(cfg, st, input, cur, fs, tail)
    ensures st.open
  {
  }

  /**
   A writer of this Conn that ends while the application is reading a message: the
   next Read reports the end of the message, so that the application takes
   run.data for all of it, which it is exactly if nothing was missing.
   */
  lemma WriterEndsReading(cfg: Config, st: State, input: bytes, cur: bytes, fs: seq<Frame>, tail: bytes,
                          reqs: seq<Request>, more: seq<Request>)
      returns (missing: bytes)
    requires Inside(cfg, st, input, cur, fs, tail) && more != []
    requires var run := Reads(cfg, st, input, reqs); !run.ended && !run.failed
    ensures var run := Reads(cfg, st, input, reqs);
            var late := Reads(cfg, EndedByWriter(run.st), run.input, more);
            && late.ended && late.data == []
            && run.data + missing == cur + MessagePayload(fs)
            && (late.input == tail <==> missing == [] && run.st.final)
  {
    var run := Reads(cfg, st, input, reqs);
    var cur', fs' := ReadsLeave(cfg, st, input, cur, fs, tail, reqs);
    missing := cur' + MessagePayload(fs');
  }

  /** fs is gs with control frames a peer may receive put in front of and between its frames. */
  predicate Interleaved(isServer: bool, fs: seq<Frame>, gs: seq<Frame>) {
    && fs != [] && !fs[|fs| - 1].Control()
    && DataFrames(fs) == gs
    && forall i :: 0 <= i < |fs| && fs[i].Control() ==> fs[i].WellFormed() && Legal(isServer, false, fs[i])
  }

  lemma {:induction false} LastDataFrame(fs: seq<Frame>)
    requires fs != [] && !fs[|fs| - 1].Control()
    ensures DataFrames(fs) != []
  {
    if |fs| > 1 {
      LastDataFrame(fs[1..]);
    }
  }

  /** What a writer sends for one message, interleaved with control frames, conforms for a peer of the other role. */
  lemma {:induction false} SentMessageFlows(isServer: bool, opcode: byte, payloads: seq<bytes>, gs: seq<Frame>, fs: seq<Frame>)
    requires IsData(opcode) || opcode == CONTINUATION
    requires gs != [] && SendsMessage(isServer, opcode, payloads, true, gs)
    requires Interleaved(!isServer, fs, gs)
    ensures Flow(!isServer, opcode == CONTINUATION, fs)
    ensures MessagePayload(fs) == Flatten(payloads)
    ensures FirstType(fs) == opcode
    ensures Sized(fs) && AllWellFormed(fs)
    decreases |fs|
  {
    if fs[0].Control() {
      assert |fs| > 1;
      SentMessageFlows(isServer, opcode, payloads, gs, fs[1..]);
      Cons(fs);
    } else {
      assert fs[0] == gs[0] && DataFrames(fs[1..]) == gs[1..];
      if |gs| == 1 {
        if |fs| > 1 {
          LastDataFrame(fs[1..]);
        }
        assert fs[1..] == [] && payloads[1..] == [];
      } else {
        assert |fs| > 1;
        SentMessageFlows(isServer, CONTINUATION, payloads[1..], gs[1..], fs[1..]);
        Cons(fs);
      }
    }
  }

  lemma Cons(fs: seq<Frame>)
    requires fs != [] && Sized(fs[1..]) && fs[0].WellFormed() && |fs[0].payload| < INT64_LIMIT
    ensures Sized(fs) && AllWellFormed(fs)
  {
    assert fs == [fs[0]] + fs[1..];
  }

  /**
   The writer's calls to the reader's bytes. gs are the frames of a message after
   these calls, as an endpoint of either role sends them (Conversation); the peer,
   of the other role, finds them interleaved with control frames in fs, behind what
   it has not read of an earlier message.
   */
  lemma WriterToReader(isServer: bool, bufferSize: nat, messageType: byte, calls: seq<WriteCall>, gs: seq<Frame>,
                       fs: seq<Frame>, cfg: Config, st: State, body: bytes, unread: seq<Frame>, tail: bytes,
                       reqs: seq<Request>)
    requires IsData(messageType) && MAX_HEADER < bufferSize
    requires Written(isServer, bufferSize, messageType, calls, gs)
    requires Interleaved(!isServer, fs, gs)
    requires cfg.isServer == !isServer && HandlersAgree(cfg, fs)
    requires Left(cfg, st, body, unread)
    ensures Sized(fs) && AllWellFormed(fs)
    ensures ReadsMessage(cfg, st, body + (EncodeAll(unread) + (EncodeAll(fs) + tail)),
                         |MessagePayload(unread)| + |AllBytes(calls)|, messageType, AllBytes(calls), tail, reqs)
  {
    hide ReadsMessage, Left, Sized, AllWellFormed, HandlersAgree, Flow, Interleaved, SendsMessage, EncodeAll, AfterCalls;
    var end := AfterCalls(isServer, bufferSize, Pending([], []), calls);
    SomeFrame(isServer, messageType, end.sent, end.buffered, gs);
    SentMessageFlows(isServer, messageType, end.sent + [end.buffered], gs, fs);
    CallsKeep(isServer, bufferSize, Pending([], []), calls);
    FlattenAppend(end.sent, end.buffered);
    assert Accepted(Pending([], [])) == [];
    assert MessagePayload(fs) == AllBytes(calls);
    MessageIsRead(cfg, st, body, unread, fs, tail, reqs);
  }

  lemma SomeFrame(isServer: bool, messageType: byte, sent: seq<bytes>, last: bytes, gs: seq<Frame>)
    requires SendsMessage(isServer, messageType, sent + [last], true, gs)
    ensures gs != []
  {
  }

  // ----- The limit may trip early -----

  function Zeros(n: nat): (s: bytes)
    ensures |s| == n
  {
    seq(n, _ => 0)
  }

  /** A message of two frames, the first empty, and a message of one frame; both as long as the limit. */
  function TwoFrames(isServer: bool, key: Key, n: nat): seq<Frame>
    requires n < INT64_LIMIT
  {
    [SentFrame(!isServer, false, TEXT, key, []), SentFrame(!isServer, true, CONTINUATION, key, Zeros(n))]
  }

  function OneFrame(isServer: bool, key: Key, n: nat): seq<Frame>
    requires n < INT64_LIMIT
  {
    [SentFrame(!isServer, true, TEXT, key, Zeros(n))]
  }

  lemma ExampleMessages(cfg: Config, key: Key, n: nat)
    requires n < INT64_LIMIT
    ensures var fs, gs := TwoFrames(cfg.isServer, key, n), OneFrame(cfg.isServer, key, n);
            && Message(cfg, fs) && Message(cfg, gs) && FirstType(fs) == FirstType(gs) == TEXT
            && fs[0].payload == [] && !fs[0].Control() && !gs[0].Control() && gs[0].payload == Zeros(n)
            && |MessagePayload(fs)| == |MessagePayload(fs[1..])| == |MessagePayload(gs)| == n
  {
    var fs, gs := TwoFrames(cfg.isServer, key, n), OneFrame(cfg.isServer, key, n);
    assert fs[1..][1..] == [] && gs[1..] == [] && |fs[1..]| == 1;
    assert Flow(cfg.isServer, true, fs[1..]);
    MessagePayloadStep(fs);
    MessagePayloadStep(fs[1..]);
    MessagePayloadStep(gs);
  }

  lemma OpensAlone(cfg: Config, gs: seq<Frame>, tail: bytes)
    requires !cfg.compression && Message(cfg, gs) && !gs[0].Control() && WithinLimit(cfg, |MessagePayload(gs)|)
    ensures var r := NextReader(cfg, Start(), EncodeAll(gs) + tail);
            r.0 == Some(FirstType(gs)) && Inside(cfg, r.1, r.2, gs[0].payload, gs[1..], tail)
  {
    hide EncodeAll, FindData, Flow, MessagePayload, Sized, AllWellFormed, HandlersAgree, WithinLimit, Inside;
    IdleLeft(cfg, Start());
    assert [] + (EncodeAll(gs) + tail) == EncodeAll(gs) + tail;
    OpensMessage(cfg, Start(), [], gs, tail);
  }

  /** A message of one frame behind fs, the rest of a message, which together are over the limit. */
  lemma RefusedBehind(cfg: Config, st: State, input: bytes, fs: seq<Frame>, gs: seq<Frame>)
    requires Message(cfg, gs) && |gs| == 1
    requires Inside(cfg, st, input, [], fs, EncodeAll(gs))
    requires !WithinLimit(cfg, |MessagePayload(fs)| + |MessagePayload(gs)|)
    ensures var r := NextReader(cfg, st, input);
            r.0 == None && r.1.err == Some(LimitExceeded)
  {
    hide FindData, EncodeAll, MessagePayload, Flow, Sized, AllWellFormed, HandlersAgree, OnWire, FirstType;
    FirstFrame(cfg, false, gs);
    assert EncodeAll(gs) + [] == EncodeAll(gs);
    var cur, gs' := FindsNext(cfg, st.(open := false, length := 0), OnWire(cfg.isServer, st, []), fs, gs, []);
    EmptyLeft(cfg, []);
  }

  /** What the two calls of NextReader give: fs is opened, and gs behind it is refused. */
  ghost predicate TripsEarly(cfg: Config, fs: seq<Frame>, gs: seq<Frame>)
    requires AllWellFormed(fs) && AllWellFormed(gs)
  {
    var (t, st, input) := NextReader(cfg, Start(), EncodeAll(fs) + EncodeAll(gs));
    var (t', st', _) := NextReader(cfg, st, input);
    t == Some(TEXT) && t' == None && st'.err == Some(LimitExceeded)
  }

  lemma FirstThenSecond(cfg: Config, fs: seq<Frame>, gs: seq<Frame>)
    requires !cfg.compression && Message(cfg, fs) && Message(cfg, gs) && |gs| == 1
    requires FirstType(fs) == TEXT && !fs[0].Control() && fs[0].payload == []
    requires WithinLimit(cfg, |MessagePayload(fs)|) && !WithinLimit(cfg, |MessagePayload(fs[1..])| + |MessagePayload(gs)|)
    ensures TripsEarly(cfg, fs, gs)
  {
    hide NextReader, EncodeAll, MessagePayload, Flow, Sized, AllWellFormed, HandlersAgree, Inside, FirstType, WithinLimit;
    FirstFrame(cfg, false, fs);
    OpensAlone(cfg, fs, EncodeAll(gs));
    var (_, st, input) := NextReader(cfg, Start(), EncodeAll(fs) + EncodeAll(gs));
    RefusedBehind(cfg, st, input, fs[1..], gs);
  }

  /**
   For every limit there are two messages within it of which the second is read
   when it comes alone, and refused when the first was opened and not read.
   */
  lemma LimitTripsEarly(cfg: Config, key: Key)
    requires !cfg.compression && 0 < cfg.limit < INT64_LIMIT
    ensures var fs, gs := TwoFrames(cfg.isServer, key, cfg.limit), OneFrame(cfg.isServer, key, cfg.limit);
            && WithinLimit(cfg, |MessagePayload(fs)|) && WithinLimit(cfg, |MessagePayload(gs)|)
            && AllWellFormed(fs) && AllWellFormed(gs)
            && NextReader(cfg, Start(), EncodeAll(gs) + []).0 == Some(TEXT)
            && TripsEarly(cfg, fs, gs)
  {
    var fs, gs := TwoFrames(cfg.isServer, key, cfg.limit), OneFrame(cfg.isServer, key, cfg.limit);
    ExampleMessages(cfg, key, cfg.limit);
    assert |gs| == 1;
    hide NextReader, TripsEarly, TwoFrames, OneFrame, EncodeAll, MessagePayload, Flow, Sized, AllWellFormed, HandlersAgree,
      Inside, FirstType;
    OpensAlone(cfg, gs, []);
    FirstThenSecond(cfg, fs, gs);
  }
}
