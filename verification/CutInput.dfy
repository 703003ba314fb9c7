/**
 The network ends inside a message. Whatever was read before is what a longer
 input would have given; and a message that is cut off never looks complete.
 */
module CutInput {
  import opened Bytes
  import opened EndToEnd
  import opened FrameDecoding
  import opened Frames
  import opened Masking
  import opened MessageReading
  import opened MessageStream
  import opened Options
  import opened Sequences

  /** r with `more` behind its input. */
  predicate WithMore<T(==)>(r: (T, State, bytes), r': (T, State, bytes), more: bytes) {
    r' == (r.0, r.1, r.2 + more)
  }

  /** The input ended within the frame, or what the call did does not depend on what comes later. */
  predicate ShortOrAlike(r: (Outcome, State, bytes), r': (Outcome, State, bytes), more: bytes) {
    r.0 == Failed(UnexpectedEnd) || WithMore(r, r', more)
  }

  lemma SplitMore(input: bytes, n: nat, more: bytes)
    requires n <= |input|
    ensures (input + more)[..n] == input[..n] && (input + more)[n..] == input[n..] + more
  {
  }

  /** Steps 5 to 7. */
  lemma KindPrefix(cfg: Config, st: State, opcode: byte, input: bytes, more: bytes)
    ensures ShortOrAlike(AdvanceKind(cfg, st, opcode, input), AdvanceKind(cfg, st, opcode, input + more), more)
  {
    hide HandleControl, Masked, Int64;
    if 0 <= st.remaining <= |input| {
      SplitMore(input, st.remaining, more);
    }
  }

  /** Step 4. */
  lemma MaskPrefix(cfg: Config, st: State, opcode: byte, input: bytes, more: bytes)
    ensures ShortOrAlike(AdvanceMask(cfg, st, opcode, input), AdvanceMask(cfg, st, opcode, input + more), more)
  {
    hide AdvanceKind;
    if !cfg.isServer {
      KindPrefix(cfg, st, opcode, input, more);
    } else if |input| >= 4 {
      SplitMore(input, 4, more);
      KindPrefix(cfg, st.(maskPos := 0, maskKey := input[..4]), opcode, input[4..], more);
    }
  }

  /** Step 3. */
  lemma LengthPrefix(cfg: Config, st: State, opcode: byte, input: bytes, more: bytes)
    ensures ShortOrAlike(AdvanceLength(cfg, st, opcode, input), AdvanceLength(cfg, st, opcode, input + more), more)
  {
    hide AdvanceMask, Int64, FromBigEndian;
    var width := if st.remaining == 126 then 2 else if st.remaining == 127 then 8 else 0;
    if width == 0 {
      MaskPrefix(cfg, st, opcode, input, more);
    } else if |input| >= width {
      SplitMore(input, width, more);
      MaskPrefix(cfg, st.(remaining := Int64(FromBigEndian(input[..width]))), opcode, input[width..], more);
    }
  }

  /**
   advanceFrame on any input, cut anywhere: it runs out of input, or it does what
   it would have done with more. io.EOF comes only from skipping what is left of a
   frame; within the next frame the end of the input is an unexpected one.
   */
  lemma AdvancePrefix(cfg: Config, st: State, input: bytes, more: bytes)
    ensures var r := Advance(cfg, st, input);
            if st.remaining > |input| then r.0 == Failed(EndOfInput)
            else ShortOrAlike(r, Advance(cfg, st, input + more), more)
  {
    hide AdvanceLength, Violations;
    if st.remaining <= |input| {
      var n := if st.remaining > 0 then st.remaining else 0;
      SplitMore(input, n, more);
      var input1 := input[n..];
      assert input[0..] == input;
      if |input1| >= 2 {
        SplitMore(input1, 2, more);
        LengthPrefix(cfg, AfterTwoBytes(cfg, st, input1[0], input1[1]), input1[0] % 16, input1[2..], more);
      }
    }
  }

  /** The loop of NextReader on a part of the input. */
  lemma {:induction false} FindPrefix(cfg: Config, st: State, input: bytes, more: bytes)
    ensures var r := FindData(cfg, st, input);
            || (r.0 == None && (r.1.err == Some(EndOfInput) || r.1.err == Some(UnexpectedEnd)))
            || WithMore(r, FindData(cfg, st, input + more), more)
    decreases |input|
  {
    hide Advance;
    if st.err == None {
      AdvancePrefix(cfg, st, input, more);
      var (o, st1, input1) := Advance(cfg, st, input);
      if o.Got? && !IsData(o.frameType) {
        FindPrefix(cfg, st1, input1, more);
      }
    }
  }

  /**
   One Read on a part of the input: it runs out of input; or it does what it would
   do with more of it, of which no more than ready' bytes are at hand yet.
   */
  lemma {:induction false} ReadPrefix(cfg: Config, st: State, input: bytes, more: bytes, size: nat, ready: nat)
      returns (ready': nat)
    requires st.err == None
    ensures ready' > 0 <==> ready > 0
    ensures var r := ReadLoop(cfg, st, input, size, ready);
            r.0.Data? ==> r.1.err == None && r.1.open == st.open
    ensures var r := ReadLoop(cfg, st, input, size, ready);
            || (r.0 == Error(UnexpectedEnd) && r.1.err == Some(UnexpectedEnd) && r.1.open == st.open)
            || WithMore(r, ReadLoop(cfg, st, input + more, size, ready'), more)
    decreases |input|
  {
    hide Advance;
    ready' := ready;
    if st.remaining > 0 {
      ready' := PayloadPrefix(cfg, st, input, more, size, ready);
    } else if !st.final {
      AdvancePrefix(cfg, st, input, more);
      var (o, st1, input1) := Advance(cfg, st, input);
      if o.Got? && !IsData(o.frameType) {
        ready' := ReadPrefix(cfg, st1, input1, more, size, ready);
      }
    }
  }

  lemma PayloadPrefix(cfg: Config, st: State, input: bytes, more: bytes, size: nat, ready: nat) returns (ready': nat)
    requires st.err == None && st.remaining > 0
    ensures ready' > 0 <==> ready > 0
    ensures var r := ReadPayload(cfg, st, input, size, ready);
            || (r.0 == Error(UnexpectedEnd) && r.1.err == Some(UnexpectedEnd) && r.1.open == st.open)
            || WithMore(r, ReadPayload(cfg, st, input + more, size, ready'), more)
  {
    hide Masked;
    ready' := if 0 < |input| < ready then |input| else ready;
    var want := if size > st.remaining then st.remaining else size;
    var n := Min3(want, |input|, ready);
    SplitMore(input, n, more);
    if want == 0 || input != [] {
      assert n == Min3(want, |input + more|, ready');
      hide Min3;
    }
  }

  // ----- Reading a message of which the network delivers a part -----

  /**
   Reads on a part of the input: they run out of it, having delivered what reads of
   more would have delivered; or they come to the same as as many reads of more.
   */
  lemma {:induction false} ReadsPrefix(cfg: Config, st: State, input: bytes, more: bytes, reqs: seq<Request>)
      returns (reqs': seq<Request>)
    requires st.err == None && st.open
    ensures var run, run' := Reads(cfg, st, input, reqs), Reads(cfg, st, input + more, reqs');
            || (run.failed && OutOfInput(run.st) && !run.ended && run.data == run'.data)
            || (run' == run.(input := run.input + more) && |reqs'| == |reqs| && (Progressing(reqs) ==> Progressing(reqs')))
    decreases |reqs|
  {
    hide ReadLoop;
    if reqs == [] {
      reqs' := [];
    } else {
      var ready' := ReadPrefix(cfg, st, input, more, reqs[0].size, reqs[0].ready);
      var (res, st1, input1) := ReadLoop(cfg, st, input, reqs[0].size, reqs[0].ready);
      if res.Data? {
        reqs' := ReadsPrefix(cfg, st1, input1, more, reqs[1..]);
        assert Progressing(reqs) ==> Progressing(reqs[1..]);
        reqs' := [Request(reqs[0].size, ready')] + reqs';
      } else if res == Error(UnexpectedEnd) && OutOfInput(st1) {
        reqs' := [];
      } else {
        reqs' := reqs[0 := Request(reqs[0].size, ready')];
      }
    }
  }

  /** The input ended too early; the reader of the message is still the open one. */
  predicate OutOfInput(st: State) {
    st.err == Some(UnexpectedEnd) && st.open
  }

  /** As long as the reader of the failed message is the open one, every Read fails. */
  lemma StaysFailed(cfg: Config, st: State, input: bytes, reqs: seq<Request>)
    requires st.err != None && st.open && reqs != []
    ensures var run := Reads(cfg, st, input, reqs); run.failed && !run.ended && run.data == []
  {
  }

  /** What reads make of a message, of which something is missing: a part of it and then an error, never its end. */
  ghost predicate NeverComplete(cfg: Config, run: ReadRun, counted: nat, payload: bytes, reqs: seq<Request>) {
    && !run.ended
    && run.data <= payload
    && (run.failed ==> OutOfInput(run.st) || (PastLimit(run.st) && !WithinLimit(cfg, counted)))
    && (Progressing(reqs) && |reqs| > |payload| ==> run.failed)
  }

  /** From the middle of a message, of whose frames the network delivers all but the bytes `missing`. */
  lemma CutInside(cfg: Config, st: State, input: bytes, missing: bytes, cur: bytes, fs: seq<Frame>, reqs: seq<Request>)
    requires Inside(cfg, st, input + missing, cur, fs, []) && missing != []
    ensures NeverComplete(cfg, Reads(cfg, st, input, reqs), Total(st, fs), cur + MessagePayload(fs), reqs)
  {
    OpenInside(cfg, st, input + missing, cur, fs, []);
    hide Inside, Reads, MessagePayload, Total, WithinLimit;
    var reqs' := ReadsPrefix(cfg, st, input, missing, reqs);
    ReadsInside(cfg, st, input + missing, cur, fs, [], reqs');
  }

  /**
   A message that the network does not deliver to its end, wherever it is cut off,
   behind what is left of an earlier one: either it is not found at all, or it is
   found, what is read of it is a part of its payload, and the reads finish in an
   error. It never looks complete.
   */
  lemma CutIsError(cfg: Config, st: State, body: bytes, fs: seq<Frame>, gs: seq<Frame>, input: bytes, missing: bytes,
                   reqs: seq<Request>)
    requires Left(cfg, st, body, fs) && Message(cfg, gs)
    requires input + missing == body + (EncodeAll(fs) + EncodeAll(gs)) && missing != []
    ensures var (t, st1, input1) := NextReader(cfg, st, input);
            var counted := |MessagePayload(fs)| + |MessagePayload(gs)|;
            if t == None then
              || st1.err == Some(EndOfInput) || st1.err == Some(UnexpectedEnd)
              || (st1.err == Some(LimitExceeded) && !WithinLimit(cfg, counted))
            else
              && t == Some(FirstType(gs))
              && NeverComplete(cfg, Reads(cfg, st1, input1, reqs), counted, MessagePayload(gs), reqs)
  {
    hide FindData, Inside, Reads, EncodeAll, MessagePayload, Flow, Sized, AllWellFormed, HandlersAgree, NeverComplete;
    var st0 := st.(open := false, length := 0);
    assert EncodeAll(gs) + [] == EncodeAll(gs);
    var cur, gs' := FindsNext(cfg, st0, body, fs, gs, []);
    FindPrefix(cfg, st0, input, missing);
    var (t, st1, input1) := FindData(cfg, st0, input);
    if t != None {
      CutInside(cfg, st1, input1, missing, cur, gs', reqs);
    }
  }

  // ----- The end of a message, on any input -----

  lemma NeverNegative(cfg: Config, st: State, input: bytes)
    ensures var r := Advance(cfg, st, input); r.0.Got? ==> 0 <= r.1.remaining
  {
    hide HandleControl, Masked, Violations, FromBigEndian, HasBit;
  }

  /** A Read of the open message reports its end only behind its final frame, all of which was delivered, and without an error. */
  lemma {:induction false} EndOnlyAtEnd(cfg: Config, st: State, input: bytes, size: nat, ready: nat)
    requires st.open && 0 <= st.remaining
    ensures var (res, st1, _) := MessageReading.Read(cfg, st, input, size, ready);
            res.End? ==> st1.err == None && st1.final && st1.remaining == 0 && !st1.open
    decreases |input|
  {
    hide Advance, Masked;
    if st.err == None && st.remaining == 0 && !st.final {
      NeverNegative(cfg, st, input);
      var (o, st1, input1) := Advance(cfg, st, input);
      if o.Got? && !IsData(o.frameType) {
        EndOnlyAtEnd(cfg, st1, input1, size, ready);
      } else {
        var e := if o.Failed? then o.error else UnexpectedData;
        assert ReadLoop(cfg, st1.(err := Some(e)), input1, size, ready).0.Error?;
      }
    }
  }
}
