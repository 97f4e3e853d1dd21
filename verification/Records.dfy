/**
 * The v3 record format of internal/wire/cipher_stream.go and the meaning of a byte stream made of
 * records: which plaintext a reader delivers from it.
 */
module Records {
  import opened Bytes
  import opened Outcomes
  import opened Crypto
  import opened ReplayWindow

  const MAX_PAYLOAD := 1400
  const PLAIN_LEN_SIZE := 2
  const MAX_PLAIN := MAX_PAYLOAD - PLAIN_LEN_SIZE
  const HEADER_SIZE := 12
  const FLUSH_THRESHOLD := 1024
  const DEFAULT_REKEY: u64 := 0x1_0000_0000

  /** V3SessionKeys, as DeriveV3SessionSeed returns them. */
  datatype RawKeys = SessionKeys(seed: Bytes, c2sPrefix: Bytes, s2cPrefix: Bytes)
  type SessionKeys = k: RawKeys | |k.seed| == 32 && |k.c2sPrefix| == 4 && |k.s2cPrefix| == 4
    witness SessionKeys(Zeros(32), Zeros(4), Zeros(4))

  predicate SupportedCipher(id: u8) {
    id == 1 || id == 2 || id == 3
  }

  /** One direction of one data stream: what both ends derive keys and nonces from. */
  datatype Lane = Lane(keys: SessionKeys, cipher: u8, streamId: u32, c2s: bool, rekeyInterval: u64)

  /** V3CipherKeyLen */
  function KeyLen(cipher: u8): nat {
    if cipher == 1 || cipher == 2 then 32 else if cipher == 3 then 16 else 0
  }

  /** Exactly the supported ciphers have a key length, so deriving a key for a stream cannot fail for want of one. */
  lemma SupportedHasKeyLen(cipher: u8)
    ensures SupportedCipher(cipher) <==> KeyLen(cipher) > 0
  {
  }

  /** The key-derivation info of StreamKey. */
  function KeyInfo(cipher: u8, c2s: bool, streamId: u32, gen: nat): Bytes {
    Ascii(if c2s then "xtunnel-v3 c2s key" else "xtunnel-v3 s2c key") + [cipher] + Be(streamId, 4) + Be(gen, 8)
  }

  function Generation(l: Lane, counter: nat): nat
    requires counter >= 1
  {
    (counter - 1) / (if l.rekeyInterval == 0 then DEFAULT_REKEY else l.rekeyInterval)
  }

  function StreamKey(c: Suite, l: Lane, gen: nat): Bytes {
    c.expand(l.keys.seed, KeyInfo(l.cipher, l.c2s, l.streamId, gen), KeyLen(l.cipher))
  }

  /** A stream's keys are as long as its cipher needs: 16 bytes for AES-128, 32 for the others. */
  lemma StreamKeySize(c: Suite, l: Lane, gen: nat)
    requires KeyLaws(c) && SupportedCipher(l.cipher)
    ensures |StreamKey(c, l, gen)| == if l.cipher == 3 then 16 else 32
  {
  }

  function Nonce(l: Lane, counter: nat): Bytes {
    (if l.c2s then l.keys.c2sPrefix else l.keys.s2cPrefix) + Be(counter, 8)
  }

  // ---- one record ----------------------------------------------------------------------------

  function Header(counter: nat, payloadLen: nat): (h: Bytes)
    ensures |h| == HEADER_SIZE
  {
    Be(counter, 8) + Be(payloadLen, 2) + Be(0, 2)
  }

  /** What one record carries. */
  datatype Record = Record(plain: Bytes, pad: Bytes) {
    ghost predicate Fits() {
      1 <= |plain| && PLAIN_LEN_SIZE + |plain| + |pad| <= MAX_PAYLOAD
    }

    function Envelope(): Bytes {
      Be(|plain|, 2) + plain + pad
    }
  }

  /** The bytes of the record with number `counter`. */
  function Sealed(c: Suite, l: Lane, counter: nat, r: Record): Bytes
    requires counter >= 1
  {
    var env := r.Envelope();
    var head := Header(counter, |env|);
    head + c.seal(l.cipher, StreamKey(c, l, Generation(l, counter)), Nonce(l, counter), env, head)
  }

  /** The boxes of records that a writer numbered 1, 2, 3, ... */
  ghost function Boxes(c: Suite, l: Lane, rs: seq<Record>): seq<Bytes> {
    seq(|rs|, i requires 0 <= i < |rs| => Sealed(c, l, i + 1, rs[i]))
  }

  ghost function Plains(rs: seq<Record>): (s: seq<Bytes>)
    ensures |s| == |rs| && forall i :: 0 <= i < |rs| ==> s[i] == rs[i].plain
  {
    seq(|rs|, i requires 0 <= i < |rs| => rs[i].plain)
  }

  ghost function Plain(rs: seq<Record>): Bytes {
    Concat(Plains(rs))
  }

  // ---- the meaning of a byte stream ----------------------------------------------------------

  predicate GoodHeader(counter: nat, payloadLen: nat) {
    counter >= 1 && PLAIN_LEN_SIZE + 1 <= payloadLen <= MAX_PAYLOAD
  }

  /** How many bytes of its inner stream a reader takes for the next record: only the header when that is malformed. */
  function FrameLen(input: Bytes): (n: nat)
    requires |input| >= HEADER_SIZE
    ensures n >= HEADER_SIZE
  {
    var payloadLen := Num(input[8..10]);
    if GoodHeader(Num(input[..8]), payloadLen) then HEADER_SIZE + payloadLen + TAG_LEN else HEADER_SIZE
  }

  /** The records a reader cuts its input into. An incomplete last one is the end of the stream. */
  function Frames(input: Bytes): (fs: seq<Bytes>)
    ensures forall i :: 0 <= i < |fs| ==> IsFrame(fs[i])
    decreases |input|
  {
    if |input| < HEADER_SIZE || |input| < FrameLen(input) then []
    else
      var n := FrameLen(input);
      SliceSlice(input, n);
      [input[..n]] + Frames(input[n..])
  }

  predicate IsFrame(b: Bytes) {
    |b| >= HEADER_SIZE && |b| == FrameLen(b)
  }

  lemma SliceSlice(input: Bytes, n: nat)
    requires HEADER_SIZE <= n <= |input|
    ensures input[..n][..8] == input[..8] && input[..n][8..10] == input[8..10]
  {
  }

  function CounterOf(b: Bytes): (n: nat)
    requires IsFrame(b)
    ensures n <= MAX_U64
  {
    Widths();
    Num(b[..8])
  }

  predicate WellFramed(b: Bytes) {
    IsFrame(b) && GoodHeader(Num(b[..8]), Num(b[8..10]))
  }

  /**
   * The header decides: with a positive counter and a payload of 3 to 1400 bytes the record goes on for
   * that payload and its tag; any other record is its header alone, and refused.
   */
  lemma HeaderDecides(c: Suite, l: Lane, b: Bytes, accepted: set<nat>)
    requires IsFrame(b)
    ensures if Num(b[..8]) >= 1 && 3 <= Num(b[8..10]) <= 1400 then |b| == 12 + Num(b[8..10]) + 16 && WellFramed(b)
            else |b| == 12 && Judge(c, l, b, accepted) == Refuse
  {
    hide Num;
  }

  /** Cutting undoes concatenation. */
  lemma {:induction false} FramesOfConcat(bs: seq<Bytes>)
    requires forall i :: 0 <= i < |bs| ==> IsFrame(bs[i])
    ensures Frames(Concat(bs)) == bs
  {
    if bs != [] {
      var b, tail := bs[0], Concat(bs[1..]);
      FramesOfConcat(bs[1..]);
      SliceLeft(b, tail, 0, 8);
      SliceLeft(b, tail, 8, 10);
      SliceLeft(b, tail, 0, |b|);
      DropLeft(b, tail);
    }
  }

  /** The envelope in a record's box, when the box is authentic. */
  function OpenFrame(c: Suite, l: Lane, b: Bytes): Option<Bytes>
    requires WellFramed(b)
  {
    var counter := CounterOf(b);
    c.open(l.cipher, StreamKey(c, l, Generation(l, counter)), Nonce(l, counter), b[HEADER_SIZE..], b[..HEADER_SIZE])
  }

  /** The record is authentic, with an envelope of the length its header names. */
  predicate Opens(c: Suite, l: Lane, b: Bytes)
    requires IsFrame(b)
  {
    && WellFramed(b)
    && match OpenFrame(c, l, b)
       case None => false
       case Some(env) => |env| == |b| - HEADER_SIZE - TAG_LEN
  }

  /** Refuse the record; or use up its number without delivering anything; or deliver its plaintext. */
  datatype Judgement = Refuse | Burn | Take(plain: Bytes)

  ghost function Judge(c: Suite, l: Lane, b: Bytes, accepted: set<nat>): Judgement
    requires IsFrame(b)
  {
    if !Opens(c, l, b) || !Acceptable(accepted, CounterOf(b)) then Refuse
    else
      var env := OpenFrame(c, l, b).value;
      var plainLen := Num(env[..2]);
      if plainLen < 1 || PLAIN_LEN_SIZE + plainLen > |env| then Burn else Take(env[2..2 + plainLen])
  }

  ghost function AcceptedWith(b: Bytes, j: Judgement, accepted: set<nat>): set<nat>
    requires IsFrame(b)
  {
    if j.Refuse? then accepted else accepted + {CounterOf(b)}
  }

  /** Every byte delivered from a list of records, reading on after each one that is refused. */
  ghost function Deliver(c: Suite, l: Lane, fs: seq<Bytes>, accepted: set<nat>): Bytes
    requires forall i :: 0 <= i < |fs| ==> IsFrame(fs[i])
  {
    if fs == [] then []
    else
      var j := Judge(c, l, fs[0], accepted);
      (if j.Take? then j.plain else []) + Deliver(c, l, fs[1..], AcceptedWith(fs[0], j, accepted))
  }

  /** Every byte a reader delivers from the bytes of its inner stream. */
  ghost function Stream(c: Suite, l: Lane, input: Bytes, accepted: set<nat>): Bytes {
    Deliver(c, l, Frames(input), accepted)
  }

  /**
   * The one record on which a read does not return: it is authentic, and the replay window gets stuck on
   * its number.
   */
  ghost predicate Stalls(c: Suite, l: Lane, b: Bytes, accepted: set<nat>)
    requires IsFrame(b)
  {
    Opens(c, l, b) && Stuck(accepted, CounterOf(b))
  }

  /** Reading the records one after the other, every read returns. */
  ghost predicate Flows(c: Suite, l: Lane, fs: seq<Bytes>, accepted: set<nat>)
    requires forall i :: 0 <= i < |fs| ==> IsFrame(fs[i])
  {
    fs != [] ==>
      && !Stalls(c, l, fs[0], accepted)
      && Flows(c, l, fs[1..], AcceptedWith(fs[0], Judge(c, l, fs[0], accepted), accepted))
  }

  /** Only an authentic record with the largest number can stall a reader. */
  lemma {:induction false} FlowsBelow(c: Suite, l: Lane, fs: seq<Bytes>, accepted: set<nat>)
    requires forall i :: 0 <= i < |fs| ==> IsFrame(fs[i]) && (Opens(c, l, fs[i]) ==> CounterOf(fs[i]) < MAX_U64)
    ensures Flows(c, l, fs, accepted)
  {
    hide Opens, Judge, CounterOf, IsFrame;
    if fs != [] {
      FlowsBelow(c, l, fs[1..], AcceptedWith(fs[0], Judge(c, l, fs[0], accepted), accepted));
    }
  }

  // ---- authentic and forged records -----------------------------------------------------------

  lemma SealedParts(c: Suite, l: Lane, counter: u64, r: Record)
    requires AeadLaws(c) && counter >= 1 && r.Fits()
    ensures var b := Sealed(c, l, counter, r);
            && WellFramed(b) && CounterOf(b) == counter && |b| == HEADER_SIZE + |r.Envelope()| + TAG_LEN
            && OpenFrame(c, l, b) == Some(r.Envelope())
  {
    var b := Sealed(c, l, counter, r);
    var n := |r.Envelope()|;
    Widths();
    NumOfBe(counter, 8);
    NumOfBe(n, 2);
    assert b[..8] == Be(counter, 8);
    assert b[8..10] == Be(n, 2);
    assert b[..HEADER_SIZE] == Header(counter, n);
    DropLeft(Header(counter, n), b[HEADER_SIZE..]);
  }

  /** An authentic record is delivered when its number is fresh, and refused otherwise. */
  lemma JudgeSealed(c: Suite, l: Lane, counter: u64, r: Record, accepted: set<nat>)
    requires AeadLaws(c) && counter >= 1 && r.Fits()
    ensures var b := Sealed(c, l, counter, r);
            && WellFramed(b) && CounterOf(b) == counter
            && Judge(c, l, b, accepted) == if Acceptable(accepted, counter) then Take(r.plain) else Refuse
  {
    var env := r.Envelope();
    SealedParts(c, l, counter, r);
    Widths();
    NumOfBe(|r.plain|, 2);
    assert env[..2] == Be(|r.plain|, 2) && env[2..2 + |r.plain|] == r.plain;
  }

  /** The frame is judged as an authentic record with this number and plaintext is. */
  ghost predicate StandsFor(c: Suite, l: Lane, b: Bytes, counter: nat, plain: Bytes) {
    && IsFrame(b) && CounterOf(b) == counter
    && forall acc: set<nat> :: Judge(c, l, b, acc) == if Acceptable(acc, counter) then Take(plain) else Refuse
  }

  lemma SealedStandsFor(c: Suite, l: Lane, counter: u64, r: Record)
    requires AeadLaws(c) && counter >= 1 && r.Fits()
    ensures StandsFor(c, l, Sealed(c, l, counter, r), counter, r.plain)
  {
    var b := Sealed(c, l, counter, r);
    SealedParts(c, l, counter, r);
    forall acc: set<nat>
      ensures Judge(c, l, b, acc) == if Acceptable(acc, counter) then Take(r.plain) else Refuse
    {
      JudgeSealed(c, l, counter, r, acc);
    }
  }

  /** One record as it reaches the reader: the i-th record of the writer, or one that is malformed or does not open. */
  datatype Arrival = Authentic(i: nat) | Forged(box: Bytes)

  ghost predicate ValidArrival(c: Suite, l: Lane, rs: seq<Record>, a: Arrival) {
    match a
    case Authentic(i) => i < |rs|
    case Forged(box) => IsFrame(box) && !Opens(c, l, box)
  }

  ghost predicate Writable(rs: seq<Record>) {
    |rs| < MAX_U64 && forall i :: 0 <= i < |rs| ==> rs[i].Fits()
  }

  ghost function BytesOf(c: Suite, l: Lane, rs: seq<Record>, a: Arrival): Bytes
    requires ValidArrival(c, l, rs, a)
  {
    match a
    case Authentic(i) => Sealed(c, l, i + 1, rs[i])
    case Forged(box) => box
  }

  ghost function FramesOf(c: Suite, l: Lane, rs: seq<Record>, arrivals: seq<Arrival>): (fs: seq<Bytes>)
    requires forall k :: 0 <= k < |arrivals| ==> ValidArrival(c, l, rs, arrivals[k])
    ensures |fs| == |arrivals| && forall k :: 0 <= k < |arrivals| ==> fs[k] == BytesOf(c, l, rs, arrivals[k])
  {
    seq(|arrivals|, k requires 0 <= k < |arrivals| => BytesOf(c, l, rs, arrivals[k]))
  }

  /** How the reader judges the bytes of an arrival, whatever its window holds. */
  ghost predicate ArrivesAs(c: Suite, l: Lane, rs: seq<Record>, a: Arrival, b: Bytes) {
    match a
    case Authentic(i) => i < |rs| && StandsFor(c, l, b, i + 1, rs[i].plain)
    case Forged(_) => IsFrame(b) && forall acc: set<nat> :: Judge(c, l, b, acc) == Refuse
  }

  lemma Arrives(c: Suite, l: Lane, rs: seq<Record>, a: Arrival)
    requires AeadLaws(c) && Writable(rs) && ValidArrival(c, l, rs, a)
    ensures ArrivesAs(c, l, rs, a, BytesOf(c, l, rs, a))
  {
    if a.Authentic? {
      SealedStandsFor(c, l, a.i + 1, rs[a.i]);
    }
  }

  /** The counters of the authentic arrivals, in order of arrival. */
  ghost function Counters(arrivals: seq<Arrival>): seq<nat> {
    if arrivals == [] then []
    else (if arrivals[0].Authentic? then [arrivals[0].i + 1] else []) + Counters(arrivals[1..])
  }

  lemma {:induction false} CountersInRange(c: Suite, l: Lane, rs: seq<Record>, arrivals: seq<Arrival>)
    requires forall k :: 0 <= k < |arrivals| ==> ValidArrival(c, l, rs, arrivals[k])
    ensures forall j :: 0 <= j < |Counters(arrivals)| ==> 1 <= Counters(arrivals)[j] <= |rs|
  {
    if arrivals != [] {
      CountersInRange(c, l, rs, arrivals[1..]);
    }
  }

  /** The plaintexts of the records whose number the window that holds `accepted` finds fresh, in order. */
  ghost function FreshFrom(rs: seq<Record>, counters: seq<nat>, accepted: set<nat>): Bytes
    requires forall j :: 0 <= j < |counters| ==> 1 <= counters[j] <= |rs|
  {
    if counters == [] then []
    else if Acceptable(accepted, counters[0]) then
      rs[counters[0] - 1].plain + FreshFrom(rs, counters[1..], accepted + {counters[0]})
    else FreshFrom(rs, counters[1..], accepted)
  }

  lemma {:induction false} DeliverArrivals(
    c: Suite, l: Lane, rs: seq<Record>, arrivals: seq<Arrival>, fs: seq<Bytes>, accepted: set<nat>)
    requires |fs| == |arrivals|
    requires forall k :: 0 <= k < |fs| ==> IsFrame(fs[k]) && ArrivesAs(c, l, rs, arrivals[k], fs[k])
    requires forall j :: 0 <= j < |Counters(arrivals)| ==> 1 <= Counters(arrivals)[j] <= |rs|
    ensures Deliver(c, l, fs, accepted) == FreshFrom(rs, Counters(arrivals), accepted)
  {
    hide Judge, Acceptable, CounterOf, IsFrame;
    if arrivals != [] {
      var a, rest := arrivals[0], arrivals[1..];
      assert ArrivesAs(c, l, rs, a, fs[0]);
      if a.Forged? {
        assert Counters(arrivals) == Counters(rest);
        DeliverArrivals(c, l, rs, rest, fs[1..], accepted);
      } else {
        assert Counters(arrivals)[1..] == Counters(rest);
        if Acceptable(accepted, a.i + 1) {
          DeliverArrivals(c, l, rs, rest, fs[1..], accepted + {a.i + 1});
        } else {
          DeliverArrivals(c, l, rs, rest, fs[1..], accepted);
        }
      }
    }
  }

  // ---- in terms of the verdicts of a whole run ------------------------------------------------

  /** The plaintexts of the records from the k-th arrival on that the run's verdicts accept. */
  ghost function Fresh(rs: seq<Record>, counters: seq<nat>, k: nat): Bytes
    requires k <= |counters| && forall j :: 0 <= j < |counters| ==> 1 <= counters[j] <= |rs|
    decreases |counters| - k
  {
    if k == |counters| then []
    else (if Verdict(counters, k) then rs[counters[k] - 1].plain else []) + Fresh(rs, counters, k + 1)
  }

  lemma {:induction false} FreshIsFreshFrom(rs: seq<Record>, counters: seq<nat>, k: nat)
    requires k <= |counters| && forall j :: 0 <= j < |counters| ==> 1 <= counters[j] <= |rs|
    ensures FreshFrom(rs, counters[k..], AcceptedAfter({}, counters[..k])) == Fresh(rs, counters, k)
    decreases |counters| - k
  {
    if k < |counters| {
      FreshIsFreshFrom(rs, counters, k + 1);
      assert counters[..k + 1][..k] == counters[..k];
      assert counters[k..][1..] == counters[k + 1..];
    }
  }

  /** No arrival stalls the reader: authentic numbers are below the largest one, and forged records do not open. */
  lemma ArrivalsFlow(c: Suite, l: Lane, rs: seq<Record>, arrivals: seq<Arrival>)
    requires AeadLaws(c) && Writable(rs)
    requires forall k :: 0 <= k < |arrivals| ==> ValidArrival(c, l, rs, arrivals[k])
    requires forall k :: 0 <= k < |arrivals| ==> IsFrame(BytesOf(c, l, rs, arrivals[k]))
    ensures Flows(c, l, FramesOf(c, l, rs, arrivals), {})
  {
    hide Opens, IsFrame, Sealed;
    var fs := FramesOf(c, l, rs, arrivals);
    forall k | 0 <= k < |fs|
      ensures IsFrame(fs[k]) && (Opens(c, l, fs[k]) ==> CounterOf(fs[k]) < MAX_U64)
    {
      var a := arrivals[k];
      if a.Authentic? {
        SealedParts(c, l, a.i + 1, rs[a.i]);
      }
    }
    FlowsBelow(c, l, fs, {});
  }

  /**
   * From any mix of authentic, repeated, reordered and forged records the reader delivers exactly the
   * plaintexts of the authentic ones that the window finds fresh on arrival. The right-hand side does
   * not mention the forged ones: they change neither the window nor anything delivered later.
   */
  lemma ReaderDelivers(c: Suite, l: Lane, rs: seq<Record>, arrivals: seq<Arrival>)
    requires AeadLaws(c) && Writable(rs)
    requires forall k :: 0 <= k < |arrivals| ==> ValidArrival(c, l, rs, arrivals[k])
    ensures forall j :: 0 <= j < |Counters(arrivals)| ==> 1 <= Counters(arrivals)[j] <= |rs|
    ensures Stream(c, l, Concat(FramesOf(c, l, rs, arrivals)), {}) == Fresh(rs, Counters(arrivals), 0)
    ensures Flows(c, l, Frames(Concat(FramesOf(c, l, rs, arrivals))), {})
  {
    var counters := Counters(arrivals);
    var fs := FramesOf(c, l, rs, arrivals);
    forall k | 0 <= k < |arrivals|
      ensures IsFrame(fs[k]) && ArrivesAs(c, l, rs, arrivals[k], fs[k])
    {
      Arrives(c, l, rs, arrivals[k]);
    }
    CountersInRange(c, l, rs, arrivals);
    FramesOfConcat(fs);
    DeliverArrivals(c, l, rs, arrivals, fs, {});
    ArrivalsFlow(c, l, rs, arrivals);
    assert counters[0..] == counters && counters[..0] == [];
    FreshIsFreshFrom(rs, counters, 0);
  }

  // ---- the writer's own stream ----------------------------------------------------------------

  ghost function FirstNumbers(k: nat): (r: set<nat>)
    ensures forall s :: s in r <==> 1 <= s <= k
  {
    if k == 0 then {} else FirstNumbers(k - 1) + {k}
  }

  /** Every record of the list is delivered. */
  ghost predicate Clean(c: Suite, l: Lane, fs: seq<Bytes>, accepted: set<nat>)
    requires forall i :: 0 <= i < |fs| ==> IsFrame(fs[i])
  {
    fs != [] ==>
      var j := Judge(c, l, fs[0], accepted);
      j.Take? && Clean(c, l, fs[1..], AcceptedWith(fs[0], j, accepted))
  }

  /** Records numbered in order are all fresh: the stream is their plaintext. */
  lemma {:induction false} DeliverInOrder(c: Suite, l: Lane, boxes: seq<Bytes>, plains: seq<Bytes>, k: nat)
    requires k <= |boxes| == |plains|
    requires forall i :: 0 <= i < |boxes| ==> IsFrame(boxes[i]) && StandsFor(c, l, boxes[i], i + 1, plains[i])
    ensures Deliver(c, l, boxes[k..], FirstNumbers(k)) == Concat(plains[k..])
    ensures Clean(c, l, boxes[k..], FirstNumbers(k))
    decreases |boxes| - k
  {
    if k < |boxes| {
      DeliverInOrder(c, l, boxes, plains, k + 1);
      assert boxes[k..][1..] == boxes[k + 1..] && plains[k..][1..] == plains[k + 1..];
      assert StandsFor(c, l, boxes[k], k + 1, plains[k]);
    }
  }

  /** What a writer emitted, delivered unchanged, is all delivered, in order. */
  lemma WriterStream(c: Suite, l: Lane, rs: seq<Record>, bs: seq<Bytes>)
    requires AeadLaws(c) && Writable(rs) && bs == Boxes(c, l, rs)
    ensures Stream(c, l, Concat(bs), {}) == Plain(rs)
    ensures Clean(c, l, Frames(Concat(bs)), {}) && Flows(c, l, Frames(Concat(bs)), {})
  {
    forall i | 0 <= i < |rs|
      ensures StandsFor(c, l, bs[i], i + 1, Plains(rs)[i])
    {
      SealedStandsFor(c, l, i + 1, rs[i]);
    }
    FramesOfConcat(bs);
    DeliverInOrder(c, l, bs, Plains(rs), 0);
    FlowsBelow(c, l, bs, {});
    assert bs[0..] == bs && Plains(rs)[0..] == Plains(rs);
  }

  lemma AppendBox(c: Suite, l: Lane, rs: seq<Record>, r: Record)
    ensures Boxes(c, l, rs + [r]) == Boxes(c, l, rs) + [Sealed(c, l, |rs| + 1, r)]
  {
    hide Sealed;
    var long, short := Boxes(c, l, rs + [r]), Boxes(c, l, rs);
    forall i | 0 <= i < |rs|
      ensures long[i] == short[i]
    {
      assert (rs + [r])[i] == rs[i];
    }
  }

  lemma AppendPlain(rs: seq<Record>, r: Record)
    ensures Plain(rs + [r]) == Plain(rs) + r.plain
  {
    assert Plains(rs + [r]) == Plains(rs) + [r.plain];
    ConcatSnoc(Plains(rs), r.plain);
  }
}
