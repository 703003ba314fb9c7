/** An application that sends a message and, while its writer is open, control frames on the same connection. */
module Conversation {
  import opened Bytes
  import opened ConnWriter
  import opened EndToEnd
  import opened FrameDecoding
  import opened Frames
  import opened MessageReading
  import opened MessageStream
  import opened MessageWriting
  import opened Options
  import opened Sequences

  datatype Action = Call(call: WriteCall) | Control(messageType: nat, data: bytes)

  function Calls(actions: seq<Action>): seq<WriteCall> {
    if actions == [] then []
    else (if actions[0].Call? then [actions[0].call] else []) + Calls(actions[1..])
  }

  function AfterAction(isServer: bool, bufferSize: nat, st: Pending, action: Action): (r: Pending)
    requires MAX_HEADER < bufferSize && |st.buffered| <= bufferSize - MAX_HEADER
    ensures |r.buffered| <= bufferSize - MAX_HEADER
  {
    if action.Call? then AfterCall(isServer, bufferSize, st, action.call) else st
  }

  /** A control message that WriteControl does not refuse. */
  predicate Accepts(messageType: nat, data: bytes) {
    IsControl(messageType) && |data| <= MAX_CONTROL_PAYLOAD
  }

  datatype ControlMessage = ControlMessage(messageType: byte, data: bytes)

  function ControlOf(action: Action): seq<ControlMessage> {
    if action.Control? && Accepts(action.messageType, action.data) then [ControlMessage(action.messageType, action.data)]
    else []
  }

  function Controls(actions: seq<Action>): seq<ControlMessage> {
    if actions == [] then [] else ControlOf(actions[0]) + Controls(actions[1..])
  }

  /** The control messages among the frames fs. */
  function ControlsIn(fs: seq<Frame>): seq<ControlMessage> {
    if fs == [] then []
    else (if fs[0].Control() then [ControlMessage(fs[0].opcode, fs[0].payload)] else []) + ControlsIn(fs[1..])
  }

  lemma {:induction false} ControlsInAppend(fs: seq<Frame>, gs: seq<Frame>)
    ensures ControlsIn(fs + gs) == ControlsIn(fs) + ControlsIn(gs)
  {
    if fs == [] {
      assert fs + gs == gs;
    } else {
      hide Frame.Control;
      assert (fs + gs)[1..] == fs[1..] + gs;
      ControlsInAppend(fs[1..], gs);
      var first := if fs[0].Control() then [ControlMessage(fs[0].opcode, fs[0].payload)] else [];
      Assoc(first, ControlsIn(fs[1..]), ControlsIn(gs));
    }
  }

  lemma OneControl(f: Frame)
    ensures f.Control() ==> ControlsIn([f]) == [ControlMessage(f.opcode, f.payload)]
  {
    assert [f][1..] == [];
  }

  lemma {:induction false} NoControls(fs: seq<Frame>)
    requires forall i :: 0 <= i < |fs| ==> !fs[i].Control()
    ensures ControlsIn(fs) == []
  {
    if fs != [] {
      NoControls(fs[1..]);
    }
  }

  /** The frames a data message adds to the wire are no control frames. */
  lemma DataAdded(isServer: bool, messageType: byte, ps: seq<bytes>, closed: bool, wire: seq<Frame>, start: nat,
                  frames: seq<Frame>, wire': seq<Frame>, frames': seq<Frame>)
    requires IsData(messageType) && SendsMessage(isServer, messageType, ps, closed, frames')
    requires start <= |wire| && Extends(wire, frames, wire', frames')
    ensures wire <= wire' && ControlsIn(wire'[start..]) == ControlsIn(wire[start..])
  {
    var more := frames'[|frames|..];
    assert wire'[start..] == wire[start..] + more;
    NoControls(more);
    ControlsInAppend(wire[start..], more);
  }

  /** No slice is longer than the largest int. */
  predicate Fits(bufferSize: nat, call: WriteCall) {
    bufferSize + (if call.WriteBytes? then |call.p| else 0) < INT64_LIMIT
  }

  /** One call on the writer. */
  method Apply(w: MessageWriter, call: WriteCall) returns (e: Option<WriteError>)
    requires w.Valid() && w.err == None && IsData(w.messageType)
    requires Fits(w.c.writeBuf.Length, call)
    modifies w, w.c, w.c.writeBuf
    ensures w.Valid() && w.err == e && (e == None || e == Some(SocketFailed))
    ensures Extends(old(w.c.wire), old(w.frames), w.c.wire, w.frames)
    ensures old(w.c.stream) == Whole ==> if e == None then w.c.stream == Whole else w.c.stream.Cut?
    ensures e == None ==> w.View() == AfterCall(w.c.isServer, w.c.writeBuf.Length, old(w.View()), call)
  {
    match call
    case WriteBytes(p) => e := w.Write(p);
    case WriteText(p) => e := w.WriteString(p);
    case ReadAllFrom(chunks) =>
      var r := new ByteSource(chunks);
      e := w.ReadFrom(r);
  }

  /** The frames since the writer was opened, for a message under way. */
  ghost predicate UnderWay(w: MessageWriter, wire: seq<Frame>, controls: seq<ControlMessage>)
    reads w, w.c
  {
    && w.Valid() && w.err == None && IsData(w.messageType)
    && w.start == |wire| && wire <= w.c.wire
    && ControlsIn(w.c.wire[w.start..]) == controls
  }

  /** A call on the writer of a message under way. */
  method ActOnWriter(w: MessageWriter, call: WriteCall, ghost wire: seq<Frame>, ghost controls: seq<ControlMessage>)
      returns (e: Option<WriteError>)
    requires UnderWay(w, wire, controls) && Fits(w.c.writeBuf.Length, call)
    modifies w, w.c, w.c.writeBuf
    ensures w.c.Valid() && (e == None || e == Some(SocketFailed))
    ensures old(w.c.stream) == Whole ==> if e == None then w.c.stream == Whole else w.c.stream.Cut?
    ensures e == None ==>
      UnderWay(w, wire, controls) && w.View() == AfterCall(w.c.isServer, w.c.writeBuf.Length, old(w.View()), call)
  {
    hide Woven, SendsMessage, Extends, AfterCall, EncodeAll, Encode, ControlsIn;
    ghost var before, sent := w.c.wire, w.frames;
    e := Apply(w, call);
    if e == None {
      DataAdded(w.c.isServer, w.messageType, Payloads(w.frames), false, before, w.start, sent, w.c.wire, w.frames);
    }
  }

  /** A control frame beside the writer. A refused one is an error of its own and changes nothing. */
  method ActBeside(w: MessageWriter, messageType: nat, data: bytes, ghost wire: seq<Frame>,
                   ghost controls: seq<ControlMessage>)
      returns (e: Option<WriteError>)
    requires UnderWay(w, wire, controls)
    modifies w.c
    ensures w.c.Valid() && (e == None || e == Some(SocketFailed))
    ensures old(w.c.stream) == Whole ==> if e == None then w.c.stream == Whole else w.c.stream.Cut?
    ensures e == None ==>
      && UnderWay(w, wire, controls + if Accepts(messageType, data) then [ControlMessage(messageType, data)] else [])
      && w.View() == old(w.View())
  {
    hide Woven, SendsMessage, EncodeAll, Encode;
    ghost var before := w.c.wire;
    ghost var key;
    e, key := w.c.WriteControl(messageType, data);
    if e == None {
      var f := SentFrame(w.c.isServer, true, messageType, key, data);
      WovenAppend(w.c.isServer, before, w.start, w.frames, f);
      assert w.frames + [] == w.frames;
      assert w.c.wire[w.start..] == before[w.start..] + [f];
      ControlsInAppend(before[w.start..], [f]);
      OneControl(f);
    } else if e != Some(SocketFailed) {
      e := None;
    }
  }

  /** One action. */
  method Act(w: MessageWriter, action: Action, ghost wire: seq<Frame>, ghost controls: seq<ControlMessage>)
      returns (e: Option<WriteError>)
    requires UnderWay(w, wire, controls)
    requires action.Call? ==> Fits(w.c.writeBuf.Length, action.call)
    modifies w, w.c, w.c.writeBuf
    ensures w.c.Valid() && (e == None || e == Some(SocketFailed))
    ensures old(w.c.stream) == Whole ==> if e == None then w.c.stream == Whole else w.c.stream.Cut?
    ensures e == None ==>
      && UnderWay(w, wire, controls + ControlOf(action))
      && w.View() == AfterAction(w.c.isServer, w.c.writeBuf.Length, old(w.View()), action)
  {
    hide Woven, SendsMessage, EncodeAll, Encode, ControlsIn, AfterCall;
    match action
    case Call(call) =>
      e := ActOnWriter(w, call, wire, controls);
      assert controls + [] == controls;
    case Control(messageType, data) =>
      e := ActBeside(w, messageType, data, wire, controls);
  }

  /** Close of the writer of a message under way. */
  method Finish(w: MessageWriter, ghost wire: seq<Frame>, ghost controls: seq<ControlMessage>)
      returns (e: Option<WriteError>, ghost fs: seq<Frame>)
    requires UnderWay(w, wire, controls) && w.c.writeBuf.Length < INT64_LIMIT
    modifies w, w.c, w.c.writeBuf
    ensures w.c.Valid() && (e == None || e == Some(SocketFailed))
    ensures old(w.c.stream) == Whole ==> if e == None then w.c.stream == Whole else w.c.stream.Cut?
    ensures e == None ==>
      && SendsMessage(w.c.isServer, w.messageType, old(w.View()).sent + [old(w.View()).buffered], true, w.frames)
      && w.c.wire == wire + fs && Interleaved(!w.c.isServer, fs, w.frames) && ControlsIn(fs) == controls
  {
    hide EncodeAll, Encode, ControlsIn, SendsMessage, Woven, Interleaved, Extends;
    ghost var before, sent, view := w.c.wire, w.frames, w.View();
    ghost var last;
    e, last := w.Close();
    fs := [];
    if e == None {
      DataAdded(w.c.isServer, w.messageType, view.sent + [view.buffered], true, before, w.start, sent, w.c.wire, w.frames);
      fs := w.c.wire[w.start..];
      ClosedPart(w.c.isServer, w.messageType, view, last, fs, w.frames);
      assert w.c.wire == before + [last];
    }
  }

  /** What was sent since a writer was opened, when that has sent its last frame at the end of it. */
  lemma ClosedPart(isServer: bool, messageType: byte, view: Pending, last: Frame, fs: seq<Frame>, gs: seq<Frame>)
    requires IsData(messageType) && SendsMessage(isServer, messageType, view.sent + [view.buffered], true, gs)
    requires Woven(isServer, fs, gs) && fs != [] && fs[|fs| - 1] == last && !last.Control()
    ensures Interleaved(!isServer, fs, gs)
  {
  }

  lemma ActionStep(isServer: bool, bufferSize: nat, st: Pending, rest: seq<Action>)
    requires MAX_HEADER < bufferSize && |st.buffered| <= bufferSize - MAX_HEADER && rest != []
    ensures AfterCalls(isServer, bufferSize, st, Calls(rest))
         == AfterCalls(isServer, bufferSize, AfterAction(isServer, bufferSize, st, rest[0]), Calls(rest[1..]))
    ensures Controls(rest) == ControlOf(rest[0]) + Controls(rest[1..])
  {
    hide AfterCall;
    var calls := Calls(rest[1..]);
    if rest[0].Call? {
      assert ([rest[0].call] + calls)[1..] == calls;
    } else {
      assert [] + calls == calls;
    }
  }

  lemma NothingMore(isServer: bool, bufferSize: nat, st: Pending, controls: seq<ControlMessage>)
    requires MAX_HEADER < bufferSize && |st.buffered| <= bufferSize - MAX_HEADER
    ensures AfterCalls(isServer, bufferSize, st, Calls([])) == st && controls + Controls([]) == controls
  {
  }

  lemma OnTheWire(before: seq<Frame>, fs: seq<Frame>, after: seq<Frame>)
    requires AllWellFormed(before) && AllWellFormed(after)
    ensures after == before + fs ==> AllWellFormed(fs) && EncodeAll(after) == EncodeAll(before) + EncodeAll(fs)
  {
    if after == before + fs {
      assert fs == after[|before|..];
      EncodeAllAppend(before, fs);
    }
  }

  /** What SendMessage has put on the wire: the message, and the control messages in their order. */
  ghost predicate Sent(isServer: bool, bufferSize: nat, messageType: byte, actions: seq<Action>,
                       fs: seq<Frame>, gs: seq<Frame>)
    requires MAX_HEADER < bufferSize
  {
    && Written(isServer, bufferSize, messageType, Calls(actions), gs)
    && Interleaved(!isServer, fs, gs)
    && ControlsIn(fs) == Controls(actions)
  }

  /**
   NextWriter, the actions, Close. Either the socket fails, and has whole frames and
   a part of the next; or the wire has got the frames of the message and, where they
   were sent, the control frames, and the socket exactly their encoding.
   */
  method SendMessage(c: Conn, messageType: byte, actions: seq<Action>)
      returns (e: Option<WriteError>, ghost fs: seq<Frame>, ghost gs: seq<Frame>)
    requires c.Valid() && IsData(messageType) && MAX_HEADER < c.writeBuf.Length < INT64_LIMIT
    requires forall i :: 0 <= i < |actions| && actions[i].Call? ==> Fits(c.writeBuf.Length, actions[i].call)
    modifies c, c.writeBuf
    ensures c.Valid() && (e == None || e == Some(SocketFailed))
    ensures old(c.stream) == Whole ==> if e == None then c.stream == Whole else c.stream.Cut?
    ensures e == None ==>
      && Sent(c.isServer, c.writeBuf.Length, messageType, actions, fs, gs)
      && AllWellFormed(fs) && c.wire == old(c.wire) + fs
      && (old(c.stream) == Whole ==> c.out == old(c.out) + EncodeAll(fs))
  {
    hide Woven, SendsMessage, Extends, EncodeAll, AfterAction, AfterCalls, Interleaved, Accepts, Calls, Controls, ControlsIn;
    fs, gs := [], [];
    var w := new MessageWriter(c, messageType);
    NoControls(c.wire[w.start..]);
    ghost var controls, size := [], c.writeBuf.Length;
    var rest := actions;
    while rest != []
      invariant UnderWay(w, old(c.wire), controls) && w.c == c && w.messageType == messageType && fresh(w)
      invariant old(c.stream) == Whole ==> c.stream == Whole
      invariant forall i :: 0 <= i < |rest| && rest[i].Call? ==> Fits(size, rest[i].call)
      invariant controls + Controls(rest) == Controls(actions)
      invariant AfterCalls(c.isServer, size, w.View(), Calls(rest))
             == AfterCalls(c.isServer, size, Pending([], []), Calls(actions))
      decreases |rest|
    {
      ActionStep(c.isServer, size, w.View(), rest);
      e := Act(w, rest[0], old(c.wire), controls);
      controls := controls + ControlOf(rest[0]);
      if e != None {
        return;
      }
      rest := rest[1..];
    }
    NothingMore(c.isServer, size, w.View(), controls);
    e, fs := Finish(w, old(c.wire), controls);
    gs := w.frames;
    OnTheWire(old(c.wire), fs, c.wire);
  }

  /** Control messages that the peer's handlers take with a nil error; a close message is never taken so. */
  predicate Taken(cfg: Config, controls: seq<ControlMessage>) {
    forall m :: m in controls ==> HandleControl(cfg, m.messageType, m.data) == Got(m.messageType)
  }

  lemma {:induction false} AmongControls(fs: seq<Frame>, i: nat)
    requires i < |fs| && fs[i].Control()
    ensures ControlMessage(fs[i].opcode, fs[i].payload) in ControlsIn(fs)
  {
    hide Frame.Control;
    if i > 0 {
      AmongControls(fs[1..], i - 1);
    }
  }

  lemma TakenAgree(cfg: Config, fs: seq<Frame>)
    requires Taken(cfg, ControlsIn(fs))
    ensures HandlersAgree(cfg, fs)
  {
    hide Frame.Control, HandleControl, ControlsIn;
    forall i | 0 <= i < |fs| && fs[i].Control()
      ensures HandleControl(cfg, fs[i].opcode, fs[i].payload) == Got(fs[i].opcode)
    {
      AmongControls(fs, i);
      var m := ControlMessage(fs[i].opcode, fs[i].payload);
      assert m in ControlsIn(fs);
    }
  }

  /**
   What SendMessage has sent is read by the peer, whatever that has left unread
   before: the bytes of the calls, whichever control messages went in between.
   */
  lemma SentIsRead(isServer: bool, bufferSize: nat, messageType: byte, actions: seq<Action>, fs: seq<Frame>, gs: seq<Frame>,
                   cfg: Config, st: State, body: bytes, unread: seq<Frame>, tail: bytes, reqs: seq<Request>)
    requires IsData(messageType) && MAX_HEADER < bufferSize
    requires Sent(isServer, bufferSize, messageType, actions, fs, gs)
    requires cfg.isServer == !isServer && Taken(cfg, Controls(actions))
    requires Left(cfg, st, body, unread)
    ensures AllWellFormed(fs)
    ensures ReadsMessage(cfg, st, body + (EncodeAll(unread) + (EncodeAll(fs) + tail)),
                         |MessagePayload(unread)| + |AllBytes(Calls(actions))|, messageType, AllBytes(Calls(actions)),
                         tail, reqs)
  {
    hide ReadsMessage, Left, Written, Interleaved, EncodeAll, AllBytes, HandlersAgree, Taken;
    TakenAgree(cfg, fs);
    WriterToReader(isServer, bufferSize, messageType, Calls(actions), gs, fs, cfg, st, body, unread, tail, reqs);
  }
}
