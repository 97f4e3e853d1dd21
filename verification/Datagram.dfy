/** Datagram frames of internal/transport/datagram.go: codec, fragmenter and bounded reassembler. */
module Datagram {
  import opened Bytes
  import opened Outcomes

  // ---- frames ----------------------------------------------------------------------------------

  /** Target addresses as raw bytes; `Other` is a type byte the code does not support. */
  datatype Addr = IPv4(ip: Bytes) | Domain(name: Bytes) | IPv6(ip: Bytes) | Other(typ: u8)

  datatype Frame = Frame(
    assocId: u16, pktId: u16, fragTotal: u8, fragId: u8, payloadLen: u16, addr: Addr, port: u16, payload: Bytes)

  datatype Error = InvalidDatagram | UnsupportedAddrType

  function AddrTypeOf(a: Addr): u8 {
    match a
    case IPv4(_) => 1
    case Domain(_) => 3
    case IPv6(_) => 4
    case Other(typ) => typ
  }

  function AddrBytes(a: Addr): Result<Bytes, Error> {
    match a
    case IPv4(ip) => if |ip| == 4 then Ok(ip) else Err(InvalidDatagram)
    case Domain(name) => if |name| > 255 then Err(InvalidDatagram) else Ok([|name|] + name)
    case IPv6(ip) => if |ip| == 16 then Ok(ip) else Err(InvalidDatagram)
    case Other(_) => Err(UnsupportedAddrType)
  }

  /** EncodeDatagram */
  function Encode(f: Frame): Result<Bytes, Error> {
    var addr :- AddrBytes(f.addr);
    Ok(HeadOf(f) + (addr + (Be(f.port, 2) + f.payload)))
  }

  /** The fixed part of an encoded frame, up to the type of its address. */
  function HeadOf(f: Frame): (head: Bytes)
    ensures |head| == 9
  {
    Be(f.assocId, 2) + Be(f.pktId, 2) + [f.fragTotal, f.fragId] + Be(|f.payload| % 0x1_0000, 2) + [AddrTypeOf(f.addr)]
  }

  /** The address at the front of `s` and what follows it, when two more bytes do. */
  function CutAddr(typ: u8, s: Bytes): Result<(Addr, Bytes), Error> {
    if typ == 1 then
      if |s| < 4 + 2 then Err(InvalidDatagram) else Ok((IPv4(s[..4]), s[4..]))
    else if typ == 3 then
      if |s| < 1 then Err(InvalidDatagram)
      else
        var n: nat := s[0];
        if |s| < 1 + n + 2 then Err(InvalidDatagram) else Ok((Domain(s[1..1 + n]), s[1 + n..]))
    else if typ == 4 then
      if |s| < 16 + 2 then Err(InvalidDatagram) else Ok((IPv6(s[..16]), s[16..]))
    else Err(UnsupportedAddrType)
  }

  /** DecodeDatagram */
  function Decode(b: Bytes): Result<Frame, Error> {
    if |b| < 11 then Err(InvalidDatagram)
    else
      Widths();
      var payloadLen: u16 := Num(b[6..8]);
      var (addr, s) :- CutAddr(b[8], b[9..]);
      if |s| < 2 + payloadLen then Err(InvalidDatagram)
      else Ok(Frame(Num(b[0..2]), Num(b[2..4]), if b[4] == 0 then 1 else b[4], b[5], payloadLen, addr,
                    Num(s[..2]), s[2..2 + payloadLen]))
  }

  lemma CutAddrOf(a: Addr, rest: Bytes)
    requires AddrBytes(a).Ok? && |rest| >= 2
    ensures CutAddr(AddrTypeOf(a), AddrBytes(a).value + rest) == Ok((a, rest))
  {
    var s := AddrBytes(a).value + rest;
    match a {
      case IPv4(ip) => assert s[..4] == ip && s[4..] == rest;
      case Domain(name) => assert s[1..1 + |name|] == name && s[1 + |name|..] == rest;
      case IPv6(ip) => assert s[..16] == ip && s[16..] == rest;
    }
  }

  /** What the 16-bit length field leaves of a frame. */
  function Narrowed(f: Frame): Frame {
    f.(fragTotal := if f.fragTotal == 0 then 1 else f.fragTotal,
       payloadLen := |f.payload| % 0x1_0000,
       payload := f.payload[..|f.payload| % 0x1_0000])
  }

  /**
   * A frame encodes exactly when its address has the size of its kind; a kind the code does not know is its
   * own error.
   */
  lemma EncodesIff(f: Frame)
    ensures Encode(f).Ok? <==> match f.addr
                               case IPv4(ip) => |ip| == 4
                               case Domain(name) => |name| <= 255
                               case IPv6(ip) => |ip| == 16
                               case Other(_) => false
    ensures Encode(f).Err? ==> Encode(f).error == if f.addr.Other? then UnsupportedAddrType else InvalidDatagram
  {
  }

  /** Every frame that encodes decodes to itself with its length narrowed to 16 bits. */
  lemma DecodeEncode(f: Frame)
    requires Encode(f).Ok?
    ensures Decode(Encode(f).value) == Ok(Narrowed(f))
  {
    hide Be, Num;
    var b := Encode(f).value;
    var addr, n := AddrBytes(f.addr).value, |f.payload| % 0x1_0000;
    var tail := Be(f.port, 2) + f.payload;
    Widths();
    NumOfBe(f.assocId, 2);
    NumOfBe(f.pktId, 2);
    NumOfBe(n, 2);
    NumOfBe(f.port, 2);
    assert b[0..2] == Be(f.assocId, 2) && b[2..4] == Be(f.pktId, 2) && b[6..8] == Be(n, 2);
    assert b[4] == f.fragTotal && b[5] == f.fragId && b[8] == AddrTypeOf(f.addr);
    assert b[9..] == addr + tail;
    CutAddrOf(f.addr, tail);
    assert tail[..2] == Be(f.port, 2) && tail[2..2 + n] == f.payload[..n];
  }

  /** The payload survives the codec exactly when it fits the length field. */
  lemma PayloadSurvivesIff(f: Frame)
    requires Encode(f).Ok?
    ensures Decode(Encode(f).value).Ok?
    ensures Decode(Encode(f).value).value.payload == f.payload <==> |f.payload| <= 65535
  {
    DecodeEncode(f);
  }

  lemma Associate(a: Bytes, b: Bytes, c: Bytes, d: Bytes)
    ensures a + b + c + d == a + (b + (c + d))
  {
  }

  /** EncodeDatagram as the code does it: one buffer, filled by offset. */
  method EncodeDatagram(f: Frame) returns (r: Result<Bytes, Error>)
    ensures r == Encode(f)
  {
    hide Be, HeadOf, AddrBytes;
    var addr := AddrBytes(f.addr);
    if addr.Err? {
      return Err(addr.error);
    }
    var buf := new u8[8 + 1 + |addr.value| + 2 + |f.payload|](_ => 0);
    var head := HeadOf(f);
    var offset := CopyBehind(buf, 0, [], head);
    offset := CopyBehind(buf, offset, head, addr.value);
    offset := CopyBehind(buf, offset, head + addr.value, Be(f.port, 2));
    offset := CopyBehind(buf, offset, head + addr.value + Be(f.port, 2), f.payload);
    assert buf[..offset] == buf[..];
    Associate(head, addr.value, Be(f.port, 2), f.payload);
    return Ok(buf[..]);
  }

  // ---- fragmentation ---------------------------------------------------------------------------

  /** How many pieces: as many as the payload needs, at most 255. */
  function FragCount(len: nat, max: nat): (n: nat)
    requires 0 < max < len
    ensures n <= 255
  {
    var n := (len + max - 1) / max;
    if n > 255 then 255 else n
  }

  lemma FragCountFacts(len: nat, max: nat)
    requires 0 < max < len
    ensures var n := FragCount(len, max);
            && 2 <= n && (n - 1) * max < len
            && (len <= 255 * max <==> len <= n * max)
  {
    var q := (len + max - 1) / max;
    QuotientFacts(len, max, q);
    if q > 255 {
      MulMonotone(255, q - 1, max);
    } else {
      MulMonotone(q, 255, max);
    }
  }

  lemma QuotientFacts(len: nat, max: nat, q: int)
    requires 0 < max < len && q == (len + max - 1) / max
    ensures 2 <= q && (q - 1) * max < len <= q * max
  {
    assert len + max - 1 == q * max + (len + max - 1) % max;
    assert (q - 1) * max == q * max - max;
    assert q <= 1 ==> q * max <= max;
  }

  function Piece(f: Frame, max: nat, i: nat): Frame
    requires 0 < max < |f.payload| && i < FragCount(|f.payload|, max)
  {
    PieceBounds(|f.payload|, max, i);
    var start := i * max;
    var end := if start + max > |f.payload| then |f.payload| else start + max;
    f.(fragTotal := FragCount(|f.payload|, max), fragId := i, payload := f.payload[start..end],
      payloadLen := (end - start) % 0x1_0000)
  }

  lemma PieceBounds(len: nat, max: nat, i: nat)
    requires 0 < max < len && i < FragCount(len, max)
    ensures 0 <= i * max < len
  {
    hide FragCount;
    FragCountFacts(len, max);
    MulMonotone(i, FragCount(len, max) - 1, max);
  }

  /** FragmentDatagram */
  function Fragments(f: Frame, max: int): seq<Frame> {
    if max <= 0 || |f.payload| <= max then
      [f.(fragTotal := 1, fragId := 0, payloadLen := |f.payload| % 0x1_0000)]
    else
      seq(FragCount(|f.payload|, max), i requires 0 <= i < FragCount(|f.payload|, max) => Piece(f, max, i))
  }

  method Fragment(f: Frame, max: int) returns (fs: seq<Frame>)
    ensures fs == Fragments(f, max)
  {
    if max <= 0 || |f.payload| <= max {
      return [f.(fragTotal := 1, fragId := 0, payloadLen := |f.payload| % 0x1_0000)];
    }
    var total := (|f.payload| + max - 1) / max;
    if total > 255 {
      total := 255;
    }
    fs := [];
    for i := 0 to total
      invariant |fs| == i && forall j :: 0 <= j < i ==> fs[j] == Piece(f, max, j)
    {
      PieceBounds(|f.payload|, max, i);
      var start := i * max;
      var end := start + max;
      if end > |f.payload| {
        end := |f.payload|;
      }
      fs := fs + [f.(fragTotal := total, fragId := i, payload := f.payload[start..end],
        payloadLen := (end - start) % 0x1_0000)];
    }
  }

  function Payloads(fs: seq<Frame>): (ps: seq<Bytes>)
    ensures |ps| == |fs| && forall i :: 0 <= i < |fs| ==> ps[i] == fs[i].payload
  {
    seq(|fs|, i requires 0 <= i < |fs| => fs[i].payload)
  }

  /** How far into the payload the first `k` pieces reach. */
  function Reach(f: Frame, max: nat, k: nat): (n: nat)
    ensures n <= |f.payload|
  {
    if k * max > |f.payload| then |f.payload| else k * max
  }

  lemma ReachZero(f: Frame, max: nat)
    ensures Reach(f, max, 0) == 0
  {
  }

  lemma PieceJoins(f: Frame, max: nat, k: nat)
    requires 0 < max < |f.payload| && k < FragCount(|f.payload|, max)
    ensures f.payload[..Reach(f, max, k)] + Piece(f, max, k).payload == f.payload[..Reach(f, max, k + 1)]
  {
    hide FragCount;
    PieceBounds(|f.payload|, max, k);
    assert (k + 1) * max == k * max + max;
  }

  lemma {:induction false} PrefixOfPieces(f: Frame, max: nat, k: nat)
    requires 0 < max < |f.payload| && k <= FragCount(|f.payload|, max)
    ensures Concat(Payloads(Fragments(f, max))[..k]) == f.payload[..Reach(f, max, k)]
  {
    hide Piece, FragCount, Reach;
    var ps := Payloads(Fragments(f, max));
    if k > 0 {
      PrefixOfPieces(f, max, k - 1);
      assert ps[..k] == ps[..k - 1] + [ps[k - 1]];
      ConcatSnoc(ps[..k - 1], ps[k - 1]);
      PieceJoins(f, max, k - 1);
    } else {
      assert Reach(f, max, 0) == 0 by { ReachZero(f, max); }
    }
  }

  /** The fragments hold the whole payload exactly when it needs at most 255 of them. */
  lemma FragmentsHoldPayloadIff(f: Frame, max: int)
    ensures Concat(Payloads(Fragments(f, max))) == f.payload <==> max <= 0 || |f.payload| <= 255 * max
  {
    var ps := Payloads(Fragments(f, max));
    if max <= 0 || |f.payload| <= max {
      assert ps == [f.payload];
      assert Concat([f.payload]) == f.payload + Concat([]);
    } else {
      var n := FragCount(|f.payload|, max);
      PrefixOfPieces(f, max, n);
      assert ps[..n] == ps;
      FragCountFacts(|f.payload|, max);
    }
  }

  /** A payload that is split goes into pieces of one to `max` bytes, numbered in order, that differ in nothing else. */
  lemma FragmentsFit(f: Frame, max: nat, i: nat)
    requires 0 < max < |f.payload| && i < |Fragments(f, max)|
    ensures var fs := Fragments(f, max);
            && 2 <= |fs| <= 255 && (|f.payload| <= 255 * max ==> (|fs| - 1) * max < |f.payload| <= |fs| * max)
            && 1 <= |fs[i].payload| <= max && fs[i].fragTotal == |fs| && fs[i].fragId == i
            && fs[i].assocId == f.assocId && fs[i].pktId == f.pktId && fs[i].addr == f.addr && fs[i].port == f.port
  {
    FragCountFacts(|f.payload|, max);
    PieceBounds(|f.payload|, max, i);
    hide FragCount;
    assert Fragments(f, max)[i] == Piece(f, max, i);
  }

  // ---- reassembly ------------------------------------------------------------------------------

  /** fragmentEntry */
  datatype Pending = Pending(fragments: map<u8, Bytes>, total: u8, frame: Frame, createdAt: int)

  type Queue = map<nat, Pending>

  datatype Outcome = Complete(frame: Frame) | Waiting | Refused

  function KeyOf(f: Frame): nat {
    f.assocId * 0x1_0000 + f.pktId
  }

  /** The same association and the same packet number. */
  predicate SamePacket(f: Frame, g: Frame) {
    f.assocId == g.assocId && f.pktId == g.pktId
  }

  /** The queue tells packets apart by association and packet number, and by nothing else. */
  lemma KeyIff(f: Frame, g: Frame)
    ensures KeyOf(f) == KeyOf(g) <==> SamePacket(f, g)
  {
  }

  function Unexpired(q: Queue, now: int, ttl: int): Queue {
    map k | k in q && now - q[k].createdAt <= ttl :: q[k]
  }

  /** The fragments in order of their numbers; a number that is missing contributes nothing. */
  function Stitch(fragments: map<u8, Bytes>, n: u8): Bytes {
    if n == 0 then [] else Stitch(fragments, n - 1) + if n - 1 in fragments then fragments[n - 1] else []
  }

  function Stitched(p: Pending): Frame {
    var whole := Stitch(p.fragments, p.total);
    p.frame.(fragTotal := 1, fragId := 0, payload := whole, payloadLen := |whole| % 0x1_0000)
  }

  /** What one call of Add does. */
  function AddTo(q: Queue, maxQueued: nat, ttl: int, f: Frame, now: int): (Queue, Outcome) {
    if f.fragTotal <= 1 then (q, Complete(f))
    else
      var live, k := Unexpired(q, now, ttl), KeyOf(f);
      if k !in live && |live| >= maxQueued then (live, Refused)
      else
        var p := if k in live then live[k] else Pending(map[], f.fragTotal, f, now);
        var p' := p.(fragments := p.fragments[f.fragId := f.payload]);
        if |p'.fragments| == p'.total then (live - {k}, Complete(Stitched(p'))) else (live[k := p'], Waiting)
  }

  /** Every entry holds at least one fragment and fewer than it needs. */
  ghost predicate Sound(q: Queue) {
    forall k <- q :: 1 <= |q[k].fragments| < q[k].total && KeyOf(q[k].frame) == k
  }

  class Reassembler {
    var entries: Queue
    const ttl: int
    const maxQueued: nat

    ghost predicate Valid()
      reads this
    {
      0 < maxQueued && |entries| <= maxQueued && Sound(entries)
    }

    constructor (ttl: int, maxQueued: int)
      ensures Valid() && entries == map[]
      ensures this.ttl == (if ttl <= 0 then 5_000_000_000 else ttl) &&
              this.maxQueued == (if maxQueued <= 0 then 1024 else maxQueued)
    {
      this.ttl := if ttl <= 0 then 5_000_000_000 else ttl;
      this.maxQueued := if maxQueued <= 0 then 1024 else maxQueued;
      entries := map[];
    }

    /** cleanupExpiredLocked: the keys in any order. */
    method Cleanup(now: int)
      modifies this
      ensures entries == Unexpired(old(entries), now, ttl)
    {
      var todo := entries.Keys;
      ghost var all := entries;
      while todo != {}
        invariant todo <= all.Keys
        invariant entries == map k | k in all && (k in todo || now - all[k].createdAt <= ttl) :: all[k]
        decreases todo
      {
        var k :| k in todo;
        todo := todo - {k};
        if now - entries[k].createdAt > ttl {
          entries := entries - {k};
        }
      }
    }

    /** Lines 248-262: the loop that puts the fragments together. */
    method StitchAll(p: Pending) returns (f: Frame)
      ensures f == Stitched(p)
    {
      var combined: Bytes := [];
      for i := 0 to p.total
        invariant combined == Stitch(p.fragments, i)
      {
        if i in p.fragments {
          combined := combined + p.fragments[i];
        }
      }
      f := p.frame.(fragTotal := 1, fragId := 0, payload := combined, payloadLen := |combined| % 0x1_0000);
    }

    /** Add */
    method Add(f: Frame, now: int) returns (r: Outcome)
      requires Valid()
      modifies this
      ensures Valid()
      ensures (entries, r) == AddTo(old(entries), maxQueued, ttl, f, now)
    {
      if f.fragTotal <= 1 {
        return Complete(f);
      }
      Cleanup(now);
      UnexpiredSmaller(old(entries), now, ttl);
      var key := KeyOf(f);
      var p;
      if key !in entries {
        if |entries| >= maxQueued {
          return Refused;
        }
        p := Pending(map[], f.fragTotal, f, now);
      } else {
        p := entries[key];
      }
      p := p.(fragments := p.fragments[f.fragId := f.payload]);
      if |p.fragments| == p.total {
        var whole := StitchAll(p);
        entries := entries - {key};
        return Complete(whole);
      }
      entries := entries[key := p];
      return Waiting;
    }
  }

  lemma UnexpiredSmaller(q: Queue, now: int, ttl: int)
    ensures |Unexpired(q, now, ttl)| <= |q|
  {
    assert Unexpired(q, now, ttl).Keys <= q.Keys;
    SubsetSize(Unexpired(q, now, ttl).Keys, q.Keys);
  }

  lemma {:induction false} SubsetSize<T>(a: set<T>, b: set<T>)
    requires a <= b
    ensures |a| <= |b| && (|a| == |b| ==> a == b)
  {
    if a != {} {
      var x :| x in a;
      SubsetSize(a - {x}, b - {x});
    }
  }
}
