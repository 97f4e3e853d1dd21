/**
 * The reading half of V3CipherStream in internal/wire/cipher_stream.go: re-framing, authentication,
 * replay filtering, and one decryption buffer that is reused from record to record.
 */
module RecordReader {
  import opened Bytes
  import opened Outcomes
  import opened Crypto
  import opened ReplayWindow
  import opened Records

  datatype ReadError = NoError | EndOfStream | BadRecord

  function Min(a: nat, b: nat): nat {
    if a < b then a else b
  }

  class Reader {
    const suite: Suite
    const lane: Lane
    var input: Bytes              // what the inner stream will still yield
    const window: Window
    var aead: Option<Bytes>       // the key of the cached AEAD
    var gen: nat
    var plainAlloc: array<u8>     // the reused decryption buffer
    var lo: nat                   // readPlainBuf is plainAlloc[lo..hi]
    var hi: nat

    ghost predicate Valid()
      reads this, window, window.bitmap
    {
      && window.Valid()
      && lo <= hi <= plainAlloc.Length
      && (aead.Some? ==> aead.value == StreamKey(suite, lane, gen))
    }

    /** Decrypted but not yet delivered. */
    ghost function Pending(): Bytes
      reads this, plainAlloc
      requires lo <= hi <= plainAlloc.Length
    {
      plainAlloc[lo..hi]
    }

    /** Everything this reader will still deliver. */
    ghost function Future(): Bytes
      reads this, window, window.bitmap, plainAlloc
      requires Valid()
    {
      Pending() + Stream(suite, lane, input, window.accepted)
    }

    /** No record ahead will be refused. */
    ghost predicate CleanAhead()
      reads this, window
    {
      Clean(suite, lane, Frames(input), window.accepted)
    }

    /** Every read ahead will return. */
    ghost predicate FlowsAhead()
      reads this, window
    {
      Flows(suite, lane, Frames(input), window.accepted)
    }

    constructor (suite: Suite, lane: Lane, input: Bytes)
      requires SupportedCipher(lane.cipher)
      ensures Valid() && fresh(window) && fresh(window.bitmap) && fresh(plainAlloc)
      ensures this.suite == suite && this.lane == lane && this.input == input
      ensures window.accepted == {} && Pending() == []
    {
      this.suite, this.lane, this.input := suite, lane, input;
      window := new Window();
      aead, gen := None, 0;
      plainAlloc := new u8[0];
      lo, hi := 0, 0;
    }

    /** Use the AEAD of generation `g`, deriving its key unless it is the cached one. */
    method UseGeneration(g: nat) returns (key: Bytes)
      requires aead.Some? ==> aead.value == StreamKey(suite, lane, gen)
      modifies this`aead, this`gen
      ensures key == StreamKey(suite, lane, g) && aead == Some(key) && gen == g
    {
      if aead.None? || g != gen {
        aead, gen := Some(StreamKey(suite, lane, g)), g;
      }
      key := aead.value;
    }

    /** Lines 371-387 and 407-415: cut the next record off the inner stream. */
    method TakeFrame() returns (frame: Option<Bytes>)
      modifies this`input
      ensures old(Frames(input)) == [] ==> frame == None && input == []
      ensures old(Frames(input)) != [] ==>
                frame == Some(old(Frames(input))[0]) && Frames(input) == old(Frames(input))[1..]
    {
      if |input| < HEADER_SIZE {
        input := [];
        return None;
      }
      var n := FrameLen(input);
      if |input| < n {
        input := [];
        return None;
      }
      frame := Some(input[..n]);
      input := input[n..];
    }

    /** Lines 389-433: authenticate a record and decrypt it into the buffer. Only called when nothing is pending. */
    method OpenInto(frame: Bytes) returns (ok: bool)
      requires Valid() && lo == hi && WellFramed(frame)
      modifies this`aead, this`gen, this`plainAlloc, this`lo, this`hi, plainAlloc
      ensures Valid() && lo == hi && (plainAlloc == old(plainAlloc) || fresh(plainAlloc))
      ensures ok <==> Opens(suite, lane, frame)
      ensures ok ==> var e := OpenFrame(suite, lane, frame).value; |e| <= plainAlloc.Length && plainAlloc[..|e|] == e
    {
      var counter, payloadLen := CounterOf(frame), |frame| - HEADER_SIZE - TAG_LEN;
      var key := UseGeneration(Generation(lane, counter));
      if plainAlloc.Length < payloadLen {
        plainAlloc := new u8[payloadLen](_ => 0);
        lo, hi := 0, 0;
      }
      var result := suite.open(lane.cipher, key, Nonce(lane, counter), frame[HEADER_SIZE..], frame[..HEADER_SIZE]);
      if result.None? || |result.value| != payloadLen {
        return false;
      }
      CopyInto(plainAlloc, 0, result.value);
      return true;
    }

    /** Lines 389-439: authenticate a record, then let the replay window decide. */
    method Admit(frame: Bytes) returns (ok: bool)
      requires Valid() && lo == hi && IsFrame(frame) && !Stalls(suite, lane, frame, window.accepted)
      modifies this`aead, this`gen, this`plainAlloc, this`lo, this`hi
      modifies window`maxSeq, window`accepted, window.bitmap, plainAlloc
      ensures Valid() && lo == hi && (plainAlloc == old(plainAlloc) || fresh(plainAlloc))
      ensures ok <==> !Judge(suite, lane, frame, old(window.accepted)).Refuse?
      ensures window.accepted == old(window.accepted) + if ok then {CounterOf(frame)} else {}
      ensures ok ==>
                var env := OpenFrame(suite, lane, frame).value;
                |env| <= plainAlloc.Length && plainAlloc[..|env|] == env
    {
      ok := false;
      if WellFramed(frame) {
        ok := OpenInto(frame);
        if ok {
          window.StuckIff(CounterOf(frame));
          ok := window.CheckAndAdd(CounterOf(frame));
        }
      }
    }

    /** Lines 441-447: the plaintext inside a decrypted envelope. */
    method Unwrap(payloadLen: nat) returns (err: ReadError)
      requires lo == hi <= plainAlloc.Length && 2 <= payloadLen <= plainAlloc.Length
      modifies this`lo, this`hi
      ensures lo <= hi <= plainAlloc.Length
      ensures var env := plainAlloc[..payloadLen];
              var plainLen := Num(env[..2]);
              if plainLen < 1 || PLAIN_LEN_SIZE + plainLen > payloadLen then err == BadRecord && Pending() == []
              else err == NoError && Pending() == env[2..2 + plainLen]
    {
      assert plainAlloc[..payloadLen][..2] == plainAlloc[..2];
      var plainLen := Num(plainAlloc[..2]);
      if plainLen < 1 || PLAIN_LEN_SIZE + plainLen > payloadLen {
        return BadRecord;
      }
      lo, hi := PLAIN_LEN_SIZE, PLAIN_LEN_SIZE + plainLen;
      ghost var env, plain := plainAlloc[..payloadLen], plainAlloc[lo..hi];
      assert |plain| == plainLen && forall k :: 0 <= k < plainLen ==> plain[k] == env[2 + k];
      assert plain == env[2..2 + plainLen];
      return NoError;
    }

    /** Lines 389-447: what becomes of a record that has been cut off. */
    method Process(frame: Bytes) returns (err: ReadError)
      requires Valid() && lo == hi && IsFrame(frame) && !Stalls(suite, lane, frame, window.accepted)
      modifies this`aead, this`gen, this`plainAlloc, this`lo, this`hi
      modifies window`maxSeq, window`accepted, window.bitmap, plainAlloc
      ensures Valid() && (plainAlloc == old(plainAlloc) || fresh(plainAlloc))
      ensures var j := Judge(suite, lane, frame, old(window.accepted));
              && window.accepted == AcceptedWith(frame, j, old(window.accepted))
              && Pending() == (if j.Take? then j.plain else [])
              && err == (if j.Take? then NoError else BadRecord)
      ensures err == NoError ==> Pending() != []
    {
      hide OpenFrame, Num, Acceptable, Stalls, Window.Valid;
      var ok := Admit(frame);
      if ok {
        err := Unwrap(|frame| - HEADER_SIZE - TAG_LEN);
      } else {
        err := BadRecord;
      }
    }

    /** Lines 371-447: bring in the next record. Only called when nothing is pending. */
    method NextRecord() returns (err: ReadError)
      requires Valid() && lo == hi
      requires |Frames(input)| > 0 ==> !Stalls(suite, lane, Frames(input)[0], window.accepted)
      modifies this, window`maxSeq, window`accepted, window.bitmap, plainAlloc
      ensures Valid() && (plainAlloc == old(plainAlloc) || fresh(plainAlloc))
      ensures Future() == old(Future())
      ensures err == NoError ==> Pending() != []
      ensures old(CleanAhead()) ==> CleanAhead() && err != BadRecord
      ensures old(FlowsAhead()) ==> FlowsAhead()
      ensures old(Frames(input)) == [] ==> err == EndOfStream && Frames(input) == [] && Pending() == []
      ensures old(Frames(input)) != [] ==>
                var j := Judge(suite, lane, old(Frames(input))[0], old(window.accepted));
                && Frames(input) == old(Frames(input))[1..]
                && window.accepted == AcceptedWith(old(Frames(input))[0], j, old(window.accepted))
                && Pending() == (if j.Take? then j.plain else [])
                && err == (if j.Take? then NoError else BadRecord)
    {
      hide Judge, Stalls, StreamKey, Window.Valid;
      var frame := TakeFrame();
      if frame.None? {
        return EndOfStream;
      }
      err := Process(frame.value);
    }

    /** Hand over as much of the pending plaintext as fits. */
    method Serve(p: array<u8>) returns (n: nat)
      requires Valid() && p != plainAlloc
      modifies this`lo, p
      ensures Valid() && n == Min(p.Length, old(|Pending()|))
      ensures p[..n] == old(Pending())[..n] && p[n..] == old(p[n..])
      ensures Pending() == old(Pending())[n..]
    {
      n := Min(p.Length, hi - lo);
      CopyInto(p, 0, plainAlloc[lo..lo + n]);
      lo := lo + n;
    }

    /** Read */
    method Read(p: array<u8>) returns (n: nat, err: ReadError)
      requires Valid() && p != plainAlloc
      requires Pending() == [] && p.Length > 0 && |Frames(input)| > 0 ==>
               !Stalls(suite, lane, Frames(input)[0], window.accepted)
      modifies this, window`maxSeq, window`accepted, window.bitmap, plainAlloc, p
      ensures Valid() && (plainAlloc == old(plainAlloc) || fresh(plainAlloc)) && p != plainAlloc
      ensures n <= p.Length && p[n..] == old(p[n..])
      // what has been delivered and what is still to come never lose, repeat or invent a byte
      ensures old(Future()) == p[..n] + Future()
      ensures err == NoError && p.Length > 0 ==> n > 0
      ensures err != NoError ==> n == 0 && old(Pending()) == [] && Pending() == []
      ensures err == EndOfStream ==> old(Frames(input)) == [] && Frames(input) == []
      ensures err == BadRecord ==>
                old(Frames(input)) != [] && !Judge(suite, lane, old(Frames(input))[0], old(window.accepted)).Take?
      ensures err == BadRecord ==> Frames(input) == old(Frames(input))[1..]
      ensures Frames(input) == old(Frames(input)) ||
              (old(Frames(input)) != [] && Frames(input) == old(Frames(input))[1..])
      ensures old(CleanAhead()) ==> CleanAhead() && err != BadRecord
      ensures old(FlowsAhead()) ==> FlowsAhead()
    {
      hide Frames, Judge, Clean, Flows, Stream, Stalls, StreamKey, Window.Valid, AcceptedWith;
      if p.Length == 0 {
        return 0, NoError;
      }
      err := NoError;
      if lo == hi {
        err := NextRecord();
        if err != NoError {
          return 0, err;
        }
      }
      ghost var pending, rest := Pending(), Stream(suite, lane, input, window.accepted);
      n := Serve(p);
      SplitAssoc(pending, n, rest);
    }
  }
}
