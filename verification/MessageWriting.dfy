/** What a messageWriter of ws/conn.go does to a message, as functions of the bytes written. */
module MessageWriting {
  import opened Bytes
  import opened Frames
  import opened Sequences

  /** The payloads of the frames already sent, and what waits in the write buffer. */
  datatype Pending = Pending(sent: seq<bytes>, buffered: bytes)

  /** The calls an application makes on a message writer between NextWriter and Close. */
  datatype WriteCall =
    | WriteBytes(p: bytes)
    | WriteText(p: bytes)
    | ReadAllFrom(chunks: seq<bytes>)

  function Flatten(ss: seq<bytes>): bytes {
    if ss == [] then [] else ss[0] + Flatten(ss[1..])
  }

  function CallBytes(call: WriteCall): bytes {
    match call
    case WriteBytes(p) => p
    case WriteText(p) => p
    case ReadAllFrom(chunks) => Flatten(chunks)
  }

  /** Copy into a buffer of `room` payload bytes, sending it whenever it is full and more is to come. */
  function Fill(room: nat, st: Pending, p: bytes): (r: Pending)
    requires 0 < room && |st.buffered| <= room
    ensures |r.buffered| <= room
    decreases |p|, |st.buffered|
  {
    if p == [] then
      st
    else if |st.buffered| == room then
      Fill(room, Pending(st.sent + [st.buffered], []), p)
    else
      var n := Min(room - |st.buffered|, |p|);
      Fill(room, Pending(st.sent, st.buffered + p[..n]), p[n..])
  }

  /** ReadFrom: each chunk is read into the free part of the buffer, which is sent as soon as it is full. */
  function Pull(room: nat, st: Pending, chunks: seq<bytes>): (r: Pending)
    requires 0 < room && |st.buffered| <= room
    ensures |r.buffered| <= room
    decreases |Flatten(chunks)|, |chunks|, |st.buffered|
  {
    if |st.buffered| == room then
      Pull(room, Pending(st.sent + [st.buffered], []), chunks)
    else if chunks == [] then
      st
    else if |chunks[0]| <= room - |st.buffered| then
      Pull(room, Pending(st.sent, st.buffered + chunks[0]), chunks[1..])
    else
      var n := room - |st.buffered|;
      SplitChunk(chunks, n);
      Pull(room, Pending(st.sent, st.buffered + chunks[0][..n]), [chunks[0][n..]] + chunks[1..])
  }

  lemma SplitChunk(chunks: seq<bytes>, n: nat)
    requires chunks != [] && n <= |chunks[0]|
    ensures Flatten(chunks) == chunks[0][..n] + Flatten([chunks[0][n..]] + chunks[1..])
  {
    var rest := [chunks[0][n..]] + chunks[1..];
    assert rest[1..] == chunks[1..];
    assert chunks[0] == chunks[0][..n] + chunks[0][n..];
    Assoc(chunks[0][..n], chunks[0][n..], Flatten(chunks[1..]));
  }

  /** A server sends a large write at once, behind what is buffered; everything else is copied. */
  function AfterCall(isServer: bool, bufferSize: nat, st: Pending, call: WriteCall): (r: Pending)
    requires MAX_HEADER < bufferSize && |st.buffered| <= bufferSize - MAX_HEADER
    ensures |r.buffered| <= bufferSize - MAX_HEADER
  {
    match call
    case WriteBytes(p) =>
      if isServer && |p| > 2 * bufferSize then
        Pending(st.sent + [st.buffered + p], [])
      else
        Fill(bufferSize - MAX_HEADER, st, p)
    case WriteText(p) => Fill(bufferSize - MAX_HEADER, st, p)
    case ReadAllFrom(chunks) => Pull(bufferSize - MAX_HEADER, st, chunks)
  }

  function AfterCalls(isServer: bool, bufferSize: nat, st: Pending, calls: seq<WriteCall>): (r: Pending)
    requires MAX_HEADER < bufferSize && |st.buffered| <= bufferSize - MAX_HEADER
    ensures |r.buffered| <= bufferSize - MAX_HEADER
    decreases |calls|
  {
    if calls == [] then st
    else AfterCalls(isServer, bufferSize, AfterCall(isServer, bufferSize, st, calls[0]), calls[1..])
  }

  function AllBytes(calls: seq<WriteCall>): bytes {
    if calls == [] then [] else CallBytes(calls[0]) + AllBytes(calls[1..])
  }

  /** Everything the writer has accepted so far. */
  function Accepted(st: Pending): bytes {
    Flatten(st.sent) + st.buffered
  }

  lemma {:induction false} FlattenAppend(ss: seq<bytes>, s: bytes)
    ensures Flatten(ss + [s]) == Flatten(ss) + s
  {
    if ss == [] {
      assert Flatten([s]) == s + Flatten([]) == s;
    } else {
      assert (ss + [s])[1..] == ss[1..] + [s];
      FlattenAppend(ss[1..], s);
      Assoc(ss[0], Flatten(ss[1..]), s);
    }
  }

  lemma FlushKeeps(st: Pending, extra: bytes)
    ensures Accepted(Pending(st.sent + [st.buffered + extra], [])) == Accepted(st) + extra
  {
    FlattenAppend(st.sent, st.buffered + extra);
    Assoc(Flatten(st.sent), st.buffered, extra);
  }

  lemma {:induction false} FillKeeps(room: nat, st: Pending, p: bytes)
    requires 0 < room && |st.buffered| <= room
    ensures Accepted(Fill(room, st, p)) == Accepted(st) + p
    decreases |p|, |st.buffered|
  {
    if p == [] {
    } else if |st.buffered| == room {
      FlushKeeps(st, []);
      assert st.buffered + [] == st.buffered;
      FillKeeps(room, Pending(st.sent + [st.buffered], []), p);
    } else {
      var n := Min(room - |st.buffered|, |p|);
      FillKeeps(room, Pending(st.sent, st.buffered + p[..n]), p[n..]);
      Assoc(Flatten(st.sent), st.buffered, p[..n]);
      Assoc(Accepted(st), p[..n], p[n..]);
      assert p[..n] + p[n..] == p;
    }
  }

  lemma {:induction false} PullKeeps(room: nat, st: Pending, chunks: seq<bytes>)
    requires 0 < room && |st.buffered| <= room
    ensures Accepted(Pull(room, st, chunks)) == Accepted(st) + Flatten(chunks)
    decreases |Flatten(chunks)|, |chunks|, |st.buffered|
  {
    if |st.buffered| == room {
      FlushKeeps(st, []);
      assert st.buffered + [] == st.buffered;
      PullKeeps(room, Pending(st.sent + [st.buffered], []), chunks);
    } else if chunks == [] {
    } else if |chunks[0]| <= room - |st.buffered| {
      PullKeeps(room, Pending(st.sent, st.buffered + chunks[0]), chunks[1..]);
      Assoc(Flatten(st.sent), st.buffered, chunks[0]);
      Assoc(Accepted(st), chunks[0], Flatten(chunks[1..]));
    } else {
      var n := room - |st.buffered|;
      var head, rest := chunks[0][..n], [chunks[0][n..]] + chunks[1..];
      SplitChunk(chunks, n);
      PullKeeps(room, Pending(st.sent, st.buffered + head), rest);
      Assoc(Flatten(st.sent), st.buffered, head);
      Assoc(Accepted(st), head, Flatten(rest));
    }
  }

  /** No call loses, repeats or reorders a byte: sent payloads and buffer hold what was written. */
  lemma {:induction false} CallsKeep(isServer: bool, bufferSize: nat, st: Pending, calls: seq<WriteCall>)
    requires MAX_HEADER < bufferSize && |st.buffered| <= bufferSize - MAX_HEADER
    ensures Accepted(AfterCalls(isServer, bufferSize, st, calls)) == Accepted(st) + AllBytes(calls)
    decreases |calls|
  {
    if calls != [] {
      var call := calls[0];
      match call {
        case WriteBytes(p) =>
          if isServer && |p| > 2 * bufferSize {
            FlushKeeps(st, p);
          } else {
            FillKeeps(bufferSize - MAX_HEADER, st, p);
          }
        case WriteText(p) => FillKeeps(bufferSize - MAX_HEADER, st, p);
        case ReadAllFrom(chunks) => PullKeeps(bufferSize - MAX_HEADER, st, chunks);
      }
      var st' := AfterCall(isServer, bufferSize, st, call);
      CallsKeep(isServer, bufferSize, st', calls[1..]);
      Assoc(Accepted(st), CallBytes(call), AllBytes(calls[1..]));
    }
  }

  /** f carries `payload`, as an endpoint of this role sends it, under some mask key. */
  predicate Sends(isServer: bool, fin: bool, opcode: byte, payload: bytes, f: Frame) {
    && f.fin == fin && f.rsv == 0 && f.opcode == opcode
    && f.mask.None? == isServer
    && f.form == ShortestForm(|payload|)
    && f.payload == payload && |payload| < INT64_LIMIT
  }

  /** fs are the frames of a message with these payloads: type first, then continuations, FIN last. */
  predicate SendsMessage(isServer: bool, messageType: byte, payloads: seq<bytes>, closed: bool, fs: seq<Frame>) {
    && |fs| == |payloads|
    && forall i :: 0 <= i < |fs| ==>
         Sends(isServer, closed && i == |fs| - 1, if i == 0 then messageType else CONTINUATION, payloads[i], fs[i])
  }

  /** The data frames of fs, in order. */
  function DataFrames(fs: seq<Frame>): seq<Frame> {
    if fs == [] then []
    else if fs[0].Control() then DataFrames(fs[1..])
    else [fs[0]] + DataFrames(fs[1..])
  }

  /** f is a control frame as an endpoint of this role sends it. */
  predicate SentControl(isServer: bool, f: Frame) {
    f.Control() && |f.payload| <= MAX_CONTROL_PAYLOAD && Sends(isServer, true, f.opcode, f.payload, f)
  }

  /** fs are the frames gs of a message and, anywhere among them, control frames of the same endpoint. */
  predicate Woven(isServer: bool, fs: seq<Frame>, gs: seq<Frame>) {
    && DataFrames(fs) == gs
    && forall i :: 0 <= i < |fs| && fs[i].Control() ==> SentControl(isServer, fs[i])
  }

  lemma {:induction false} DataFramesAppend(fs: seq<Frame>, f: Frame)
    ensures DataFrames(fs + [f]) == DataFrames(fs) + if f.Control() then [] else [f]
  {
    if fs == [] {
      assert (fs + [f])[1..] == [];
    } else {
      assert (fs + [f])[1..] == fs[1..] + [f];
      DataFramesAppend(fs[1..], f);
    }
  }

  /** What a further frame does to a message on its way: a data frame goes on with it, a control frame leaves it alone. */
  lemma WovenAppend(isServer: bool, wire: seq<Frame>, start: nat, gs: seq<Frame>, f: Frame)
    requires start <= |wire| && Woven(isServer, wire[start..], gs)
    requires f.Control() ==> SentControl(isServer, f)
    ensures Woven(isServer, (wire + [f])[start..], gs + if f.Control() then [] else [f])
  {
    assert (wire + [f])[start..] == wire[start..] + [f];
    DataFramesAppend(wire[start..], f);
  }

  /** gs are the frames of a message of this type, after these calls on a new writer and Close. */
  predicate Written(isServer: bool, bufferSize: nat, messageType: byte, calls: seq<WriteCall>, gs: seq<Frame>)
    requires MAX_HEADER < bufferSize
  {
    var end := AfterCalls(isServer, bufferSize, Pending([], []), calls);
    SendsMessage(isServer, messageType, end.sent + [end.buffered], true, gs)
  }
}
