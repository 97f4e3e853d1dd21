/** Whole runs of a data stream: any writes on one end, any reads on the other, messages on top of both. */
module Session {
  import opened Bytes
  import opened Outcomes
  import opened Crypto
  import opened Records
  import W = RecordWriter
  import R = RecordReader
  import opened Framing

  // ---- any run of a writer ---------------------------------------------------------------------

  datatype Event = Put(p: Bytes) | TimerFires | Shut | Set(padRecords: bool, coalesce: bool)

  /** The bytes written before the stream was closed. */
  ghost function Written(es: seq<Event>, closed: bool): Bytes {
    if es == [] then []
    else
      (if es[0].Put? && !closed then es[0].p else []) + Written(es[1..], closed || es[0].Shut?)
  }

  ghost predicate Closed(es: seq<Event>) {
    exists i :: 0 <= i < |es| && es[i].Shut?
  }

  lemma {:induction false} WrittenSnoc(es: seq<Event>, e: Event, closed: bool)
    ensures Written(es + [e], closed) ==
            Written(es, closed) + if e.Put? && !closed && !Closed(es) then e.p else []
  {
    if es == [] {
      assert es + [e] == [e] && [e][1..] == [];
    } else {
      assert (es + [e])[1..] == es[1..] + [e];
      WrittenSnoc(es[1..], e, closed || es[0].Shut?);
      if i :| 0 <= i < |es| && es[i].Shut? && i > 0 {
        assert es[1..][i - 1].Shut?;
      }
      if i :| 0 <= i < |es[1..]| && es[1..][i].Shut? {
        assert es[i + 1].Shut?;
      }
    }
  }

  /** Once the buffer is empty, a reader gets from the emitted records every byte the writer took. */
  lemma FlushedStream(w: W.Writer)
    requires w.Valid() && w.coalesceBuf == [] && w.counter < MAX_U64 && AeadLaws(w.suite)
    ensures w.sent == w.taken && Stream(w.suite, w.lane, Concat(w.wire), {}) == w.taken
    ensures Clean(w.suite, w.lane, Frames(Concat(w.wire)), {}) && Flows(w.suite, w.lane, Frames(Concat(w.wire)), {})
  {
    WriterStream(w.suite, w.lane, w.records, w.wire);
  }

  lemma FlushedSent(w: W.Writer)
    requires w.Valid() && w.coalesceBuf == []
    ensures w.sent == w.taken
  {
  }

  /** One thing that happens to a stream. */
  method Apply(w: W.Writer, e: Event)
    requires w.Valid()
    modifies w, w.payloadBuf
    ensures w.Valid() && old(w.records) <= w.records && old(w.counter) <= w.counter
    ensures w.closed <==> old(w.closed) || e.Shut?
    ensures w.counter < MAX_U64 ==>
              && w.taken == old(w.taken) + (if e.Put? && !old(w.closed) then e.p else [])
              && (e.Shut? || (old(w.closed) && old(w.coalesceBuf) == []) ==> w.coalesceBuf == [])
  {
    hide W.Writer.Valid, W.Writer.Needs, W.Chunks, W.Sends, W.Rest, W.Last;
    match e {
      case Put(p) =>
        var _, _ := w.Write(p);
      case TimerFires =>
        w.OnTimer();
      case Shut =>
        w.Close();
      case Set(pad, coalesce) =>
        w.Configure(pad, coalesce);
    }
  }

  /**
   * Whatever is written, whenever the timer fires, with coalescing and padding switched at will: until
   * the counter runs out, the records and the buffer hold exactly what was written, and once the
   * stream is closed a reader gets all of it.
   */
  method RunWriter(suite: Suite, lane: Lane, randomness: nat -> Bytes, es: seq<Event>) returns (w: W.Writer)
    requires SupportedCipher(lane.cipher)
    ensures w.Valid() && w.suite == suite && w.lane == lane
    ensures w.counter < MAX_U64 ==> w.taken == Written(es, false) && (Closed(es) ==> w.sent == Written(es, false))
    ensures AeadLaws(suite) && w.counter < MAX_U64 && Closed(es) ==>
              Stream(suite, lane, Concat(w.wire), {}) == Written(es, false)
  {
    hide W.Writer.Valid, Stream;
    w := new W.Writer(suite, lane, true, false, randomness);
    for i := 0 to |es|
      invariant w.Valid() && fresh(w) && fresh(w.payloadBuf) && w.suite == suite && w.lane == lane
      invariant w.closed <==> Closed(es[..i])
      invariant w.counter < MAX_U64 ==> w.taken == Written(es[..i], false) && (w.closed ==> w.coalesceBuf == [])
    {
      assert es[..i + 1] == es[..i] + [es[i]];
      WrittenSnoc(es[..i], es[i], false);
      Apply(w, es[i]);
      assert es[i].Shut? ==> es[..i + 1][i].Shut?;
    }
    assert es[..|es|] == es;
    if w.counter < MAX_U64 && Closed(es) {
      FlushedSent(w);
    }
    if AeadLaws(suite) && w.counter < MAX_U64 && Closed(es) {
      FlushedStream(w);
    }
  }

  /** NewV3CipherStream: both halves of a stream, on opposite lanes, or an error. */
  method NewStream(suite: Suite, keys: RawKeys, cipher: u8, streamId: u32, clientSide: bool, randomness: nat -> Bytes,
    input: Bytes)
    returns (s: Option<(W.Writer, R.Reader)>)
    requires |keys.seed| == 32
    ensures s.Some? <==> SupportedCipher(cipher) && |keys.c2sPrefix| == |keys.s2cPrefix| == 4
    ensures s.Some? ==>
              var (w, r) := s.value;
              && fresh(w) && fresh(w.payloadBuf) && w.Valid() && w.taken == [] && !w.closed && w.suite == suite
              && w.padRecords && !w.coalesce
              && fresh(r) && fresh(r.window) && fresh(r.window.bitmap) && fresh(r.plainAlloc) && r.Valid()
              && r.suite == suite && r.input == input && r.window.accepted == {}
              && r.Future() == Stream(suite, r.lane, input, {})
              && w.lane == Lane(keys, cipher, streamId, clientSide, DEFAULT_REKEY)
              && r.lane == Lane(keys, cipher, streamId, !clientSide, DEFAULT_REKEY)
  {
    hide Stream;
    if !SupportedCipher(cipher) {
      return None;
    }
    if |keys.c2sPrefix| != 4 || |keys.s2cPrefix| != 4 {
      return None;
    }
    var w := new W.Writer(suite, Lane(keys, cipher, streamId, clientSide, DEFAULT_REKEY), true, false, randomness);
    var r := new R.Reader(suite, Lane(keys, cipher, streamId, !clientSide, DEFAULT_REKEY), input);
    assert [] + Stream(suite, r.lane, input, {}) == Stream(suite, r.lane, input, {});
    return Some((w, r));
  }

  // ---- any run of a reader ---------------------------------------------------------------------

  /** One Read into a fresh buffer. */
  method ReadSome(r: R.Reader, size: nat) returns (got: Bytes, err: R.ReadError)
    requires r.Valid() && r.FlowsAhead()
    modifies r, r.window`maxSeq, r.window`accepted, r.window.bitmap, r.plainAlloc
    ensures r.Valid() && r.FlowsAhead() && (r.plainAlloc == old(r.plainAlloc) || fresh(r.plainAlloc))
    ensures |got| <= size && old(r.Future()) == got + r.Future()
    ensures err == R.NoError && size > 0 ==> got != []
    ensures err != R.NoError ==> got == []
    ensures err == R.EndOfStream ==> r.Future() == []
    ensures |Frames(r.input)| <= |old(Frames(r.input))| &&
            (err == R.BadRecord ==> |Frames(r.input)| < |old(Frames(r.input))|)
    ensures old(r.CleanAhead()) ==> r.CleanAhead() && err != R.BadRecord
  {
    var p := new u8[size](_ => 0);
    var n;
    n, err := r.Read(p);
    got := p[..n];
  }

  /**
   * Any sequence of reads, with buffers of any size and reading on after errors, hands out the stream's
   * bytes in order.
   */
  method RunReader(r: R.Reader, sizes: seq<nat>) returns (got: Bytes)
    requires r.Valid() && r.FlowsAhead()
    modifies r, r.window`maxSeq, r.window`accepted, r.window.bitmap, r.plainAlloc
    ensures r.Valid() && old(r.Future()) == got + r.Future()
  {
    hide *;
    got := [];
    for i := 0 to |sizes|
      invariant r.Valid() && r.FlowsAhead()
      invariant r.plainAlloc == old(r.plainAlloc) || fresh(r.plainAlloc)
      invariant old(r.Future()) == got + r.Future()
    {
      ghost var before, future := got, r.Future();
      var more, _ := ReadSome(r, sizes[i]);
      got := got + more;
      assert before + future == got + r.Future();
    }
  }

  /**
   * Read until the inner stream ends, going on after every record that is refused: nothing of the stream is
   * missing.
   */
  method ReadToEnd(r: R.Reader, size: nat) returns (got: Bytes)
    requires r.Valid() && r.FlowsAhead() && size > 0
    modifies r, r.window`maxSeq, r.window`accepted, r.window.bitmap, r.plainAlloc
    ensures r.Valid() && got == old(r.Future())
  {
    hide *;
    got := [];
    while true
      invariant r.Valid() && r.FlowsAhead()
      invariant r.plainAlloc == old(r.plainAlloc) || fresh(r.plainAlloc)
      invariant old(r.Future()) == got + r.Future()
      decreases |Frames(r.input)|, |r.Future()|
    {
      ghost var before, future := got, r.Future();
      var more, err := ReadSome(r, size);
      got := got + more;
      assert before + future == got + r.Future();
      if err == R.EndOfStream {
        assert got + [] == got;
        return;
      }
    }
  }

  /**
   * A new reader on any mix of authentic, repeated, reordered and forged records: it hands out the
   * plaintexts of the authentic records that were fresh on arrival, each once, and nothing else.
   */
  method ReceiveArrivals(suite: Suite, lane: Lane, ghost rs: seq<Record>, ghost arrivals: seq<Arrival>, input: Bytes,
    size: nat)
    returns (got: Bytes)
    requires AeadLaws(suite) && SupportedCipher(lane.cipher) && Writable(rs) && size > 0
    requires forall k :: 0 <= k < |arrivals| ==> ValidArrival(suite, lane, rs, arrivals[k])
    requires input == Concat(FramesOf(suite, lane, rs, arrivals))
    ensures forall j :: 0 <= j < |Counters(arrivals)| ==> 1 <= Counters(arrivals)[j] <= |rs|
    ensures got == Fresh(rs, Counters(arrivals), 0)
  {
    hide AeadLaws, Writable, ValidArrival, FramesOf, Frames, Flows, R.Reader.Valid, Stream;
    ReaderDelivers(suite, lane, rs, arrivals);
    var r := new R.Reader(suite, lane, input);
    got := ReadToEnd(r, size);
    assert [] + Stream(suite, lane, input, {}) == Stream(suite, lane, input, {});
  }

  /** io.ReadFull on a reader. */
  method ReadFull(r: R.Reader, size: nat) returns (got: Bytes, ok: bool)
    requires r.Valid() && r.FlowsAhead()
    modifies r, r.window`maxSeq, r.window`accepted, r.window.bitmap, r.plainAlloc
    ensures r.Valid() && r.FlowsAhead() && (r.plainAlloc == old(r.plainAlloc) || fresh(r.plainAlloc))
    ensures old(r.Future()) == got + r.Future()
    ensures ok <==> |got| == size
    ensures old(r.CleanAhead()) ==> r.CleanAhead()
    ensures old(r.CleanAhead()) && |old(r.Future())| >= size ==> ok
  {
    hide *;
    got := [];
    while |got| < size
      invariant r.Valid() && r.FlowsAhead() && |got| <= size
      invariant r.plainAlloc == old(r.plainAlloc) || fresh(r.plainAlloc)
      invariant old(r.Future()) == got + r.Future()
      invariant old(r.CleanAhead()) ==> r.CleanAhead()
      decreases size - |got|
    {
      ghost var before, future := got, r.Future();
      var more, err := ReadSome(r, size - |got|);
      got := got + more;
      assert before + future == got + r.Future();
      if err != R.NoError {
        return got, false;
      }
    }
    ok := true;
  }

  // ---- messages over a data stream -------------------------------------------------------------

  /** Read one message of a given kind: what the read functions of protocol.go do with io.ReadFull. */
  method ReadMessage(r: R.Reader, k: Kind, hostPort: Bytes -> bool) returns (m: Option<Message>)
    requires r.Valid() && r.FlowsAhead()
    modifies r, r.window`maxSeq, r.window`accepted, r.window.bitmap, r.plainAlloc
    ensures r.Valid() && r.FlowsAhead() && (r.plainAlloc == old(r.plainAlloc) || fresh(r.plainAlloc))
    // a message that is read is the one the stream holds next, even when records are refused later on
    ensures m.Some? ==> Parse(k, hostPort, old(r.Future())) == Some((m.value, r.Future()))
    // and with no refused record ahead, failing means that the stream holds none
    ensures old(r.CleanAhead()) ==> r.CleanAhead() && (m.None? ==> Parse(k, hostPort, old(r.Future())) == None)
  {
    hide R.Reader.Valid, R.Reader.Future, R.Reader.CleanAhead, R.Reader.FlowsAhead, Frames;
    ghost var all := r.Future();
    var h, ok := ReadFull(r, HeaderLen(k));
    if !ok {
      return None;
    }
    ghost var s1 := r.Future();
    assert all[..|h|] == h && all[|h|..] == s1;
    var n := FieldLen(k, h, 0);
    var f;
    f, ok := ReadFull(r, n);
    if !ok {
      return None;
    }
    ghost var s2 := r.Future();
    assert s1[..n] == f && s1[n..] == s2;
    if k != KUdpReply {
      return Some(Rebuild(k, h, [f]));
    }
    if !hostPort(f) {
      return None;
    }
    var g;
    g, ok := ReadFull(r, FieldLen(k, h, 1));
    if !ok {
      return None;
    }
    assert s2[..|g|] == g && s2[|g|..] == r.Future();
    return Some(Rebuild(k, h, [f, g]));
  }

  lemma ConcatNone()
    ensures Concat([]) == []
  {
  }

  /** Write on an open stream: all of it is taken, unless the counter runs out. */
  method WriteAll(w: W.Writer, p: Bytes) returns (err: W.WriteError)
    requires w.Valid() && !w.closed
    modifies w`counter, w`aead, w`gen, w`wire, w`records, w`sent, w`coalesceBuf, w`taken, w`timerPending
    modifies w.payloadBuf
    ensures w.Valid() && old(w.counter) <= w.counter
    ensures if err == W.NoError then w.taken == old(w.taken) + p else w.counter == MAX_U64
  {
    hide W.Writer.Valid, W.Writer.Needs, W.Rest, W.Last;
    var n;
    n, err := w.Write(p);
  }

  /** Send one message: the header, then each field that is not empty. */
  method Send(w: W.Writer, m: Message)
    requires w.Valid() && !w.closed
    modifies w`counter, w`aead, w`gen, w`wire, w`records, w`sent, w`coalesceBuf, w`taken, w`timerPending
    modifies w.payloadBuf
    ensures w.Valid() && old(w.counter) <= w.counter
    ensures w.counter < MAX_U64 ==> w.taken == old(w.taken) + m.Wire()
  {
    hide W.Writer.Valid, Message.Header, Message.Fields, Concat;
    var err := WriteAll(w, m.Header());
    assert |m.Header()| > 0;
    if err != W.NoError {
      return;
    }
    var fs := m.Fields();
    assert Concat(fs[..0]) == [] by { ConcatNone(); }
    for i := 0 to |fs|
      invariant w.Valid() && old(w.counter) <= w.counter
      invariant w.counter < MAX_U64 ==> w.taken == old(w.taken) + m.Header() + Concat(fs[..i])
    {
      assert fs[..i + 1] == fs[..i] + [fs[i]];
      ConcatSnoc(fs[..i], fs[i]);
      if fs[i] != [] {
        var e := WriteAll(w, fs[i]);
        if e != W.NoError {
          return;
        }
      }
    }
    assert fs[..|fs|] == fs;
  }

  /**
   * The whole path: messages framed, written, coalesced, padded, sealed, carried, re-framed, opened,
   * checked against replays and parsed arrive as they were sent, unless the counter has run out.
   */
  method Converse(suite: Suite, lane: Lane, coalesce: bool, randomness: nat -> Bytes, timer: nat -> bool,
                  hostPort: Bytes -> bool, ms: seq<Message>)
    returns (received: seq<Message>, w: W.Writer)
    requires AeadLaws(suite) && SupportedCipher(lane.cipher)
    requires forall i :: 0 <= i < |ms| ==> ms[i].Sendable(hostPort)
    ensures w.Valid() && w.suite == suite && w.lane == lane
    ensures w.counter < MAX_U64 ==> received == ms && w.taken == WireOf(ms)
  {
    hide W.Writer.Valid, Clean, Stream, Frames, Flows;
    w := new W.Writer(suite, lane, true, coalesce, randomness);
    SendAll(w, timer, ms);
    received := [];
    if w.counter < MAX_U64 {
      FlushedStream(w);
      var r := new R.Reader(suite, lane, Concat(w.wire));
      received := Receive(r, hostPort, ms, seq(|ms|, i requires 0 <= i < |ms| => ms[i].Kind()));
    }
  }

  /** Send every message, with the coalesce timer firing after any of them, and close. */
  method SendAll(w: W.Writer, timer: nat -> bool, ms: seq<Message>)
    requires w.Valid() && !w.closed && w.taken == []
    modifies w, w.payloadBuf
    ensures w.Valid() && (w.counter < MAX_U64 ==> w.taken == WireOf(ms) && w.coalesceBuf == [])
  {
    hide W.Writer.Valid;
    for i := 0 to |ms|
      invariant w.Valid() && !w.closed
      invariant w.counter < MAX_U64 ==> w.taken == WireOf(ms[..i])
    {
      Send(w, ms[i]);
      assert ms[..i + 1] == ms[..i] + [ms[i]];
      WireSnoc(ms[..i], ms[i]);
      if timer(i) {
        w.OnTimer();
      }
    }
    w.Close();
    assert ms[..|ms|] == ms;
  }

  method Receive(r: R.Reader, hostPort: Bytes -> bool, ghost ms: seq<Message>, kinds: seq<Kind>)
    returns (received: seq<Message>)
    requires r.Valid() && r.FlowsAhead() && r.CleanAhead()
    requires r.Future() == WireOf(ms)
    requires |kinds| == |ms| && forall i :: 0 <= i < |ms| ==> ms[i].Sendable(hostPort) && kinds[i] == ms[i].Kind()
    modifies r, r.window`maxSeq, r.window`accepted, r.window.bitmap, r.plainAlloc
    ensures received == ms
  {
    hide R.Reader.Valid, R.Reader.Future, R.Reader.CleanAhead, R.Reader.FlowsAhead, Frames, Parse, Message.Sendable,
         Message.Wire;
    received := [];
    assert ms[0..] == ms;
    for i := 0 to |kinds|
      invariant r.Valid() && r.FlowsAhead() && r.CleanAhead()
      invariant r.plainAlloc == old(r.plainAlloc) || fresh(r.plainAlloc)
      invariant r.Future() == WireOf(ms[i..]) && received == ms[..i]
    {
      assert ms[i..][1..] == ms[i + 1..];
      RoundTrip(ms[i], hostPort, WireOf(ms[i + 1..]));
      var m := ReadMessage(r, kinds[i], hostPort);
      received := received + [m.value];
    }
  }
}
