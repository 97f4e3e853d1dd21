/**
 * The writing half of V3CipherStream in internal/wire/cipher_stream.go: chunking, coalescing, padding,
 * numbering and rekeying, with the coalesce timer and Close.
 */
module RecordWriter {
  import opened Bytes
  import opened Outcomes
  import opened Crypto
  import opened Records

  datatype WriteError = NoError | ClosedPipe | TooLong | CounterOverflow

  /** How many records carry `n` bytes that are sent to the last one. */
  function Chunks(n: nat): nat {
    if n == 0 then 0 else if n <= MAX_PLAIN then 1 else 1 + Chunks(n - MAX_PLAIN)
  }

  /** How many records the coalescing loop sends of `n` buffered bytes. */
  function Sends(n: nat): nat {
    if n < FLUSH_THRESHOLD then 0 else if n <= MAX_PLAIN then 1 else 1 + Sends(n - MAX_PLAIN)
  }

  /** How many of `n` buffered bytes the coalescing loop holds back. */
  function Rest(n: nat): (r: nat)
    ensures r <= n && r < FLUSH_THRESHOLD
  {
    if n < FLUSH_THRESHOLD then n else if n <= MAX_PLAIN then 0 else Rest(n - MAX_PLAIN)
  }

  function Last(s: Bytes, n: nat): Bytes
    requires n <= |s|
  {
    s[|s| - n..]
  }

  function Front(n: nat): nat {
    if n > MAX_PLAIN then MAX_PLAIN else n
  }

  /** What the coalescing loop keeps, from `all` buffered bytes and `start` numbers used on. */
  ghost predicate Draining(all: Bytes, buf: Bytes, counter: nat, start: nat) {
    && |buf| <= |all| && buf == Last(all, |buf|) && Rest(|buf|) == Rest(|all|)
    && counter + Sends(|buf|) == start + Sends(|all|)
  }

  /** The sizes in figures: 1398 bytes to a record, and nothing goes out of fewer than 1024 buffered ones. */
  lemma {:induction false} Figures(n: nat)
    ensures Chunks(n) == (n + 1397) / 1398
    ensures Sends(n) == 0 <==> n < 1024
    ensures Rest(n) == n <==> n < 1024
    ensures Rest(n) == if n % 1398 < 1024 then n % 1398 else 0
  {
    if n > 1398 {
      Figures(n - 1398);
      assert (n - 1398) % 1398 == n % 1398 && (n - 1398 + 1397) / 1398 == (n + 1397) / 1398 - 1;
    }
  }

  lemma DrainStart(all: Bytes, start: nat)
    ensures Draining(all, all, start, start)
  {
  }

  /** One turn of the loop: if there is no number left, the loop needs more than there are. */
  lemma DrainStep(all: Bytes, buf: Bytes, counter: nat, start: nat)
    requires Draining(all, buf, counter, start) && |buf| >= FLUSH_THRESHOLD
    ensures Draining(all, buf[Front(|buf|)..], counter + 1, start)
    ensures |buf| <= |all| && buf == Last(all, |buf|) && counter < start + Sends(|all|)
  {
    var n := |buf|;
    assert Sends(n) == 1 + Sends(n - Front(n)) && Rest(n) == Rest(n - Front(n));
    assert Last(all, n)[Front(n)..] == Last(all, n - Front(n));
  }

  lemma DrainEnd(all: Bytes, buf: Bytes, counter: nat, start: nat)
    requires Draining(all, buf, counter, start) && |buf| < FLUSH_THRESHOLD
    ensures buf == Last(all, Rest(|all|)) && counter == start + Sends(|all|)
  {
  }

  class Writer {
    const suite: Suite
    const lane: Lane
    var padRecords: bool
    var coalesce: bool                 // CoalesceDelay > 0
    var counter: nat
    var aead: Option<Bytes>            // the key of the cached AEAD
    var gen: nat
    const payloadBuf: array<u8>
    var coalesceBuf: Bytes
    var timerPending: bool
    var closed: bool
    var wire: seq<Bytes>               // the writes made on the inner stream, one for each record
    ghost var records: seq<Record>     // what those writes carry
    ghost var sent: Bytes              // the plaintext in them
    ghost var taken: Bytes             // every byte taken over from callers

    const randomness: nat -> Bytes     // the padding drawn for each record, cut to what fits

    /** What has been handed to the inner stream. */
    ghost predicate Emitted()
      reads this`counter, this`aead, this`gen, this`wire, this`records, this`sent
    {
      && payloadBuf.Length == MAX_PAYLOAD
      // numbering: the i-th record carries counter i+1, so no counter is ever used twice
      && counter == |records| <= MAX_U64
      && wire == Boxes(suite, lane, records)
      && sent == Plain(records)
      // the cached AEAD is the one of its generation
      && (aead.Some? ==> aead.value == StreamKey(suite, lane, gen))
      // every envelope has 3 to 1400 bytes
      && forall i :: 0 <= i < |records| ==> records[i].Fits()
    }

    /** Nothing is lost, added or reordered. */
    ghost predicate Conserved()
      reads this`sent, this`coalesceBuf, this`taken
    {
      sent + coalesceBuf == taken
    }

    /** What is buffered on an open stream will be flushed. */
    ghost predicate Watched()
      reads this
    {
      coalesceBuf != [] && !closed ==> timerPending
    }

    ghost predicate Valid()
      reads this
    {
      && Emitted() && Conserved()
      // until the counter has run out
      && (counter < MAX_U64 ==> Watched())
    }

    constructor (suite: Suite, lane: Lane, padRecords: bool, coalesce: bool, randomness: nat -> Bytes)
      requires SupportedCipher(lane.cipher)
      ensures Valid() && fresh(payloadBuf) && this.suite == suite && this.lane == lane
      ensures records == [] && taken == [] && !closed && !timerPending
      ensures this.padRecords == padRecords && this.coalesce == coalesce
    {
      this.suite, this.lane, this.padRecords, this.coalesce := suite, lane, padRecords, coalesce;
      this.randomness := randomness;
      counter, aead, gen := 0, None, 0;
      payloadBuf := new u8[MAX_PAYLOAD](_ => 0);
      coalesceBuf, timerPending, closed, wire := [], false, false, [];
      records, sent, taken := [], [], [];
      new;
      assert Boxes(suite, lane, []) == [] && Plains([]) == [];
    }

    /** Fill the envelope in place: length, plaintext, padding. Bytes left from earlier records never show. */
    method FillEnvelope(r: Record)
      requires payloadBuf.Length == MAX_PAYLOAD && r.Fits()
      modifies payloadBuf
      ensures payloadBuf[..|r.Envelope()|] == r.Envelope()
    {
      hide Be;
      var head := Be(|r.plain|, 2);
      var off := CopyBehind(payloadBuf, 0, [], head);
      off := CopyBehind(payloadBuf, off, head, r.plain);
      off := CopyBehind(payloadBuf, off, head + r.plain, r.pad);
    }

    /** sampleRecordPadLen and the random padding bytes. */
    function Padding(n: nat, maxPad: nat): (pad: Bytes)
      reads this`padRecords
      ensures |pad| <= maxPad
    {
      if !padRecords then []
      else if |randomness(n)| <= maxPad then randomness(n) else randomness(n)[..maxPad]
    }

    /**
     * Record `n` is padded as the padding switch says: not at all, or with the bytes drawn for it, as far
     * as they fit.
     */
    ghost predicate PaddedAs(r: Record, n: nat)
      reads this`padRecords
    {
      if padRecords then r.pad <= randomness(n) && (r.pad == randomness(n) || |r.Envelope()| == MAX_PAYLOAD)
      else r.pad == []
    }

    /** Use the AEAD of generation `g`, deriving its key unless it is the cached one. */
    method UseGeneration(g: nat) returns (key: Bytes)
      requires aead.Some? ==> aead.value == StreamKey(suite, lane, gen)
      modifies this`aead, this`gen
      ensures key == StreamKey(suite, lane, g) && aead == Some(key) && gen == g
    {
      if aead.None? || g != gen {
        aead, gen := Some(StreamKey(suite, lane, g)), g;
      }
      key := aead.value;
    }

    /** writeRecordLocked */
    method WriteRecord(plain: Bytes) returns (err: WriteError)
      requires Emitted()
      modifies this`counter, this`aead, this`gen, this`wire, this`records, this`sent, payloadBuf
      ensures Emitted()
      ensures err == if plain == [] then NoError
                     else if |plain| > MAX_PLAIN then TooLong
                     else if old(counter) == MAX_U64 then CounterOverflow
                     else NoError
      ensures plain == [] || err != NoError ==> records == old(records)
      ensures plain != [] && err == NoError ==>
                |records| == old(|records|) + 1 && records[..|records| - 1] == old(records) &&
                records[|records| - 1].plain == plain && PaddedAs(records[|records| - 1], |records|)
      ensures sent == old(sent) + if err == NoError then plain else []
      ensures old(records) <= records && counter <= MAX_U64
      ensures counter == old(counter) + if plain != [] && err == NoError then 1 else 0
    {
      if plain == [] {
        return NoError;
      }
      if |plain| > MAX_PLAIN {
        return TooLong;
      }
      if counter == MAX_U64 {
        return CounterOverflow;
      }
      SealNext(plain);
      return NoError;
    }

    /** Lines 196-258: number and seal one record. */
    method SealBox(plain: Bytes) returns (box: Bytes, ghost r: Record)
      requires payloadBuf.Length == MAX_PAYLOAD && 1 <= |plain| <= MAX_PLAIN && counter < MAX_U64
      requires aead.Some? ==> aead.value == StreamKey(suite, lane, gen)
      modifies this`counter, this`aead, this`gen, payloadBuf
      ensures counter == old(counter) + 1
      ensures aead.Some? && aead.value == StreamKey(suite, lane, gen)
      ensures r.Fits() && r.plain == plain && PaddedAs(r, counter) && box == Sealed(suite, lane, counter, r)
    {
      counter := counter + 1;
      var key := UseGeneration(Generation(lane, counter));
      var rec := Record(plain, Padding(counter, MAX_PAYLOAD - PLAIN_LEN_SIZE - |plain|));
      FillEnvelope(rec);
      var payloadLen := PLAIN_LEN_SIZE + |plain| + |rec.pad|;
      var head := Header(counter, payloadLen);
      box := head + suite.seal(lane.cipher, key, Nonce(lane, counter), payloadBuf[..payloadLen], head);
      r := rec;
    }

    /** Seal one record and hand it to the inner stream. */
    method SealNext(plain: Bytes)
      requires Emitted() && 1 <= |plain| <= MAX_PLAIN && counter < MAX_U64
      modifies this`counter, this`aead, this`gen, this`wire, this`records, this`sent, payloadBuf
      ensures Emitted() && sent == old(sent) + plain
      ensures |records| == old(|records|) + 1 && records[..|records| - 1] == old(records)
      ensures records[|records| - 1].plain == plain && PaddedAs(records[|records| - 1], |records|)
    {
      hide Sealed, StreamKey, Record.Fits, Plain, Boxes, PaddedAs;
      ghost var r;
      var box;
      box, r := SealBox(plain);
      wire := wire + [box];
      AppendBox(suite, lane, records, r);
      AppendPlain(records, r);
      records, sent := records + [r], sent + plain;
    }

    /** Send the first record's worth of the coalesce buffer and drop it from the buffer. */
    method SendFront() returns (err: WriteError)
      requires Emitted() && Conserved() && coalesceBuf != []
      modifies this`counter, this`aead, this`gen, this`wire, this`records, this`sent, this`coalesceBuf, payloadBuf
      ensures Emitted() && Conserved() && old(records) <= records
      ensures err == if old(counter) < MAX_U64 then NoError else CounterOverflow
      ensures if err == NoError then MAX_U64 >= counter == old(counter) + 1 &&
              coalesceBuf == old(coalesceBuf)[Front(|old(coalesceBuf)|)..]
              else counter == MAX_U64 && coalesceBuf == old(coalesceBuf)
    {
      var chunk := Front(|coalesceBuf|);
      err := WriteRecord(coalesceBuf[..chunk]);
      if err != NoError {
        return err;
      }
      assert coalesceBuf == coalesceBuf[..chunk] + coalesceBuf[chunk..];
      coalesceBuf := coalesceBuf[chunk..];
    }

    /** flushCoalesceBufLocked: it fails exactly when there are not numbers enough for what is buffered. */
    method Flush() returns (err: WriteError)
      requires Emitted() && Conserved()
      modifies this`counter, this`aead, this`gen, this`wire, this`records, this`sent, this`coalesceBuf, payloadBuf
      ensures Emitted() && Conserved() && old(records) <= records
      ensures err == if old(counter) + Chunks(|old(coalesceBuf)|) <= MAX_U64 then NoError else CounterOverflow
      ensures if err == NoError then coalesceBuf == [] && counter == old(counter) + Chunks(|old(coalesceBuf)|)
              else coalesceBuf != [] && counter == MAX_U64
    {
      while coalesceBuf != []
        invariant Emitted() && Conserved() && old(records) <= records
        invariant counter + Chunks(|coalesceBuf|) == old(counter) + Chunks(|old(coalesceBuf)|)
        decreases |coalesceBuf|
      {
        err := SendFront();
        if err != NoError {
          return err;
        }
      }
      return NoError;
    }

    /** onCoalesceTimer */
    method OnTimer()
      requires Valid()
      modifies this`counter, this`aead, this`gen, this`wire, this`records, this`sent, this`coalesceBuf,
               this`timerPending, payloadBuf
      ensures Valid() && !timerPending && old(records) <= records && old(counter) <= counter
      ensures closed ==> records == old(records) && coalesceBuf == old(coalesceBuf)
      ensures !closed ==> (coalesceBuf != [] <==> old(counter) + Chunks(|old(coalesceBuf)|) > MAX_U64)
      ensures !closed ==> (!Watched() <==> old(counter) + Chunks(|old(coalesceBuf)|) > MAX_U64)
    {
      if closed || coalesceBuf == [] {
        timerPending := false;
        return;
      }
      var _ := Flush();
      timerPending := false;
    }

    /** Take over one record's worth of a caller's bytes and send it at once. */
    method SendPart(part: Bytes) returns (err: WriteError)
      requires Emitted() && Conserved() && coalesceBuf == [] && 1 <= |part| <= MAX_PLAIN
      modifies this`counter, this`aead, this`gen, this`wire, this`records, this`sent, this`taken, payloadBuf
      ensures Emitted() && Conserved() && old(records) <= records
      ensures err == if old(counter) < MAX_U64 then NoError else CounterOverflow
      ensures if err == NoError then MAX_U64 >= counter == old(counter) + 1 && taken == old(taken) + part
              else counter == MAX_U64 && taken == old(taken)
    {
      err := WriteRecord(part);
      if err == NoError {
        taken := taken + part;
      }
    }

    /** The chunk loop of the direct path (lines 309-322). */
    method WriteChunks(p: Bytes) returns (n: nat, err: WriteError)
      requires Emitted() && Conserved() && coalesceBuf == []
      modifies this`counter, this`aead, this`gen, this`wire, this`records, this`sent, this`taken, payloadBuf
      ensures Emitted() && Conserved() && old(records) <= records
      ensures n <= |p| && taken == old(taken) + p[..n]
      ensures err == if old(counter) + Chunks(|p|) <= MAX_U64 then NoError else CounterOverflow
      ensures if err == NoError then n == |p| && counter == old(counter) + Chunks(|p|)
              else counter == MAX_U64 && n < |p|
    {
      assert counter <= MAX_U64;
      hide Emitted, Conserved;
      n := 0;
      while n < |p|
        invariant n <= |p| && Emitted() && Conserved() && old(records) <= records
        invariant counter <= MAX_U64 && counter + Chunks(|p| - n) == old(counter) + Chunks(|p|)
        invariant taken == old(taken) + p[..n]
      {
        var chunk := Front(|p| - n);
        var part := p[n..n + chunk];
        err := SendPart(part);
        if err != NoError {
          return n, err;
        }
        assert p[..n + chunk] == p[..n] + part;
        n := n + chunk;
      }
      assert p[..n] == p;
      return n, NoError;
    }

    /** The direct path of Write (lines 303-322). */
    method WriteDirect(p: Bytes) returns (n: nat, err: WriteError)
      requires Valid() && p != [] && !closed
      modifies this`counter, this`aead, this`gen, this`wire, this`records, this`sent, this`coalesceBuf, this`taken,
               payloadBuf
      ensures Valid() && old(records) <= records && old(counter) <= counter
      ensures n <= |p| && taken == old(taken) + p[..n]
      ensures var flush := Chunks(|old(coalesceBuf)|);
              && (err == if old(counter) + flush + Chunks(|p|) <= MAX_U64 then NoError else CounterOverflow)
              && (coalesceBuf != [] <==> old(counter) + flush > MAX_U64)
      ensures if err == NoError then n == |p| && counter == old(counter) + Chunks(|old(coalesceBuf)|) + Chunks(|p|)
              else counter == MAX_U64 && n < |p|
    {
      if coalesceBuf != [] {
        err := Flush();
        if err != NoError {
          return 0, err;
        }
      }
      n, err := WriteChunks(p);
    }

    /** The coalescing path of Write, up to the timer (lines 326-340). */
    method Buffer(p: Bytes) returns (err: WriteError)
      requires Emitted() && Conserved()
      modifies this`counter, this`aead, this`gen, this`wire, this`records, this`sent, this`coalesceBuf, this`taken,
               payloadBuf
      ensures Emitted() && Conserved() && old(records) <= records
      ensures taken == old(taken) + p
      ensures err == if old(counter) + Sends(|old(coalesceBuf)| + |p|) <= MAX_U64 then NoError else CounterOverflow
      ensures var all := old(coalesceBuf) + p;
              if err == NoError then counter == old(counter) + Sends(|all|) && coalesceBuf == Last(all, Rest(|all|))
              else
                && counter == MAX_U64 && FLUSH_THRESHOLD <= |coalesceBuf| <= |all|
                && coalesceBuf == Last(all, |coalesceBuf|)
      ensures |old(coalesceBuf)| + |p| < FLUSH_THRESHOLD ==> records == old(records)
    {
      hide Emitted, Sends, Rest, Last;
      TakeOver(p);
      err := Drain();
    }

    /** Append a caller's bytes to the coalesce buffer. */
    method TakeOver(p: Bytes)
      requires Conserved()
      modifies this`coalesceBuf, this`taken
      ensures Conserved() && coalesceBuf == old(coalesceBuf) + p && taken == old(taken) + p
    {
      coalesceBuf, taken := coalesceBuf + p, taken + p;
    }

    /** The loop that sends the front of the buffer while it holds too much (lines 329-340). */
    method Drain() returns (err: WriteError)
      requires Emitted() && Conserved()
      modifies this`counter, this`aead, this`gen, this`wire, this`records, this`sent, this`coalesceBuf, payloadBuf
      ensures Emitted() && Conserved() && old(records) <= records
      ensures err == if old(counter) + Sends(|old(coalesceBuf)|) <= MAX_U64 then NoError else CounterOverflow
      ensures var all := old(coalesceBuf);
              if err == NoError then counter == old(counter) + Sends(|all|) && coalesceBuf == Last(all, Rest(|all|))
              else
                && counter == MAX_U64 && FLUSH_THRESHOLD <= |coalesceBuf| <= |all|
                && coalesceBuf == Last(all, |coalesceBuf|)
      ensures |old(coalesceBuf)| < FLUSH_THRESHOLD ==> records == old(records)
    {
      assert counter <= MAX_U64;
      hide Emitted, Conserved, Sends, Rest, Last, Draining;
      ghost var all, start := coalesceBuf, counter;
      DrainStart(all, start);
      while |coalesceBuf| >= FLUSH_THRESHOLD
        invariant Emitted() && Conserved() && old(records) <= records && counter <= MAX_U64
        invariant Draining(all, coalesceBuf, counter, start)
        invariant |all| < FLUSH_THRESHOLD ==> records == old(records) && coalesceBuf == all
      {
        DrainStep(all, coalesceBuf, counter, start);
        err := SendFront();
        if err != NoError {
          return err;
        }
      }
      DrainEnd(all, coalesceBuf, counter, start);
      return NoError;
    }

    /** The coalescing path of Write with its timer (lines 326-354). */
    method WriteCoalesced(p: Bytes) returns (n: nat, err: WriteError)
      requires Valid() && p != [] && !closed
      modifies this`counter, this`aead, this`gen, this`wire, this`records, this`sent, this`coalesceBuf, this`taken,
               this`timerPending
      modifies payloadBuf
      ensures Valid() && old(records) <= records && old(counter) <= counter
      ensures taken == old(taken) + p
      ensures err == if old(counter) + Sends(|old(coalesceBuf)| + |p|) <= MAX_U64 then NoError else CounterOverflow
      ensures err == NoError ==>
                var all := old(coalesceBuf) + p;
                counter == old(counter) + Sends(|all|) && coalesceBuf == Last(all, Rest(|all|))
      // a small write is held back
      ensures |old(coalesceBuf)| + |p| < FLUSH_THRESHOLD ==>
                records == old(records) && coalesceBuf == old(coalesceBuf) + p && timerPending
      ensures if err == NoError then n == |p| && (timerPending <==> coalesceBuf != [])
              else n == 0 && counter == MAX_U64 && coalesceBuf != [] && timerPending == old(timerPending)
    {
      err := Buffer(p);
      if err != NoError {
        return 0, err;
      }
      if coalesceBuf == [] {
        timerPending := false;
      } else if !timerPending {
        timerPending := true;
      }
      return |p|, NoError;
    }

    /** How many more numbers a Write needs: first for what is flushed before its own bytes, and then for those. */
    function Needs(p: Bytes): (r: (nat, nat))
      reads this`coalesce, this`coalesceBuf
    {
      if coalesce then (0, Sends(|coalesceBuf| + |p|)) else (Chunks(|coalesceBuf|), Chunks(|p|))
    }

    /** Write */
    method Write(p: Bytes) returns (n: nat, err: WriteError)
      requires Valid()
      modifies this`counter, this`aead, this`gen, this`wire, this`records, this`sent, this`coalesceBuf, this`taken,
               this`timerPending
      modifies payloadBuf
      ensures Valid() && old(records) <= records && old(counter) <= counter
      ensures p == [] ==> n == 0 && err == NoError
      ensures p != [] && closed ==> n == 0 && err == ClosedPipe
      ensures p == [] || closed ==>
                records == old(records) && taken == old(taken) && coalesceBuf == old(coalesceBuf) &&
                  timerPending == old(timerPending)
      // the error, in terms of the state before the call
      ensures p != [] && !closed ==>
                err == if old(counter) + old(Needs(p)).0 + old(Needs(p)).1 <= MAX_U64 then NoError else CounterOverflow
      ensures p != [] && !closed && err == NoError ==> n == |p| && taken == old(taken) + p
      ensures p != [] && !closed && err == NoError ==>
                && counter == old(counter) + old(Needs(p)).0 + old(Needs(p)).1
                && var all := old(coalesceBuf) + p;
                   coalesceBuf == if coalesce then Last(all, Rest(|all|)) else []
      // with coalescing on, a small write is held back until the timer
      ensures p != [] && !closed && coalesce && |old(coalesceBuf)| + |p| < FLUSH_THRESHOLD ==>
                records == old(records) && coalesceBuf == old(coalesceBuf) + p && timerPending
      ensures p != [] && !closed && err != NoError ==>
                counter == MAX_U64 && if coalesce then n == 0 && taken == old(taken) + p
                  else n < |p| && taken == old(taken) + p[..n]
      // a buffer is left without a timer exactly when the numbers run out before it is empty and no timer was pending
      ensures p != [] && !closed ==>
                (!Watched() <==>
                 !old(timerPending) && old(counter) + old(if coalesce then Needs(p).1 else Needs(p).0) > MAX_U64)
    {
      hide Emitted, Conserved, Chunks, Sends, Rest, Last;
      if p == [] {
        return 0, NoError;
      }
      if closed {
        return 0, ClosedPipe;
      }
      if !coalesce {
        n, err := WriteDirect(p);
      } else {
        n, err := WriteCoalesced(p);
      }
    }

    /** Close, up to the inner stream's own Close. */
    method Close()
      requires Valid()
      modifies this`counter, this`aead, this`gen, this`wire, this`records, this`sent, this`coalesceBuf,
               this`timerPending, this`closed
      modifies payloadBuf
      ensures Valid() && closed && !timerPending && old(records) <= records && old(counter) <= counter
      ensures coalesceBuf == [] <==> old(counter) + Chunks(|old(coalesceBuf)|) <= MAX_U64
      ensures counter < MAX_U64 ==> coalesceBuf == []
    {
      timerPending := false;
      if coalesceBuf != [] {
        var _ := Flush();
      }
      closed := true;
    }

    /** The delay and padding switches are plain fields that their owner may set at any time. */
    method Configure(padRecords: bool, coalesce: bool)
      requires Valid()
      modifies this`padRecords, this`coalesce
      ensures Valid() && this.padRecords == padRecords && this.coalesce == coalesce
    {
      this.padRecords, this.coalesce := padRecords, coalesce;
    }
  }

  /** Once the counter has run out, a large write on an idle stream stays in the buffer with no timer to flush it. */
  method TimerLostAtOverflow(w: Writer, p: Bytes) returns (err: WriteError)
    requires w.Valid() && w.counter == MAX_U64 && w.coalesce && !w.closed && w.coalesceBuf == [] && !w.timerPending
    requires |p| >= FLUSH_THRESHOLD
    modifies w, w.payloadBuf
    ensures w.Valid() && err == CounterOverflow && w.coalesceBuf != [] && !w.closed && !w.timerPending
  {
    var n;
    n, err := w.Write(p);
    assert w.records == old(w.records);
  }
}
