/** The messages of internal/wire/protocol.go that travel over a data stream, and how they read back. */
module Framing {
  import opened Bytes
  import opened Outcomes

  datatype Kind = KOpenHeader | KStatus | KStatusCode | KChunk | KUdpReply

  datatype Message =
    | OpenHeader(kind: u8, strategy: u8, target: Bytes)
    | Status(status: u8, text: Bytes)
    | StatusCode(status: u8, code: u8, text: Bytes)
    | Chunk(data: Bytes)
    | UdpReply(addr: Bytes, data: Bytes)
  {
    function Kind(): Kind {
      match this
      case OpenHeader(_, _, _) => KOpenHeader
      case Status(_, _) => KStatus
      case StatusCode(_, _, _) => KStatusCode
      case Chunk(_) => KChunk
      case UdpReply(_, _) => KUdpReply
    }

    /** The variable-length fields, in the order they follow the header. */
    function Fields(): (fs: seq<Bytes>)
      ensures |fs| == FieldCount(Kind())
    {
      match this
      case OpenHeader(_, _, target) => [target]
      case Status(_, text) => [text]
      case StatusCode(_, _, text) => [text]
      case Chunk(data) => [data]
      case UdpReply(addr, data) => [addr, data]
    }

    function Header(): (h: Bytes)
      ensures |h| == HeaderLen(Kind())
    {
      match this
      case OpenHeader(kind, strategy, target) => [kind, strategy] + Be(|target|, 2)
      case Status(status, text) => [status] + Be(|text|, 2)
      case StatusCode(status, code, text) => [status, code] + Be(|text|, 2)
      case Chunk(data) => Be(|data|, 2)
      case UdpReply(addr, data) => Be(|addr|, 2) + Be(|data|, 2)
    }

    /** What the write functions check before they send anything. */
    predicate Sendable(hostPort: Bytes -> bool) {
      && (forall i :: 0 <= i < |Fields()| ==> |Fields()[i]| <= MAX_FIELD)
      && (UdpReply? ==> hostPort(addr))
    }

    function Wire(): Bytes {
      Header() + Concat(Fields())
    }
  }

  function FieldCount(k: Kind): nat {
    if k == KUdpReply then 2 else 1
  }

  function HeaderLen(k: Kind): nat {
    match k
    case KOpenHeader => 4
    case KStatus => 3
    case KStatusCode => 4
    case KChunk => 2
    case KUdpReply => 4
  }

  /** The length of the i-th field, as the header announces it. */
  function FieldLen(k: Kind, h: Bytes, i: nat): nat
    requires |h| == HeaderLen(k) && i < FieldCount(k)
  {
    match k
    case KStatus => Num(h[1..3])
    case KChunk => Num(h[0..2])
    case KUdpReply => if i == 0 then Num(h[0..2]) else Num(h[2..4])
    case _ => Num(h[2..4])
  }

  function Rebuild(k: Kind, h: Bytes, fs: seq<Bytes>): Message
    requires |h| == HeaderLen(k) && |fs| == FieldCount(k)
  {
    match k
    case KOpenHeader => OpenHeader(h[0], h[1], fs[0])
    case KStatus => Status(h[0], fs[0])
    case KStatusCode => StatusCode(h[0], h[1], fs[0])
    case KChunk => Chunk(fs[0])
    case KUdpReply => UdpReply(fs[0], fs[1])
  }

  /** The read functions on a byte string: the message and what follows it. */
  function Parse(k: Kind, hostPort: Bytes -> bool, s: Bytes): Option<(Message, Bytes)> {
    if |s| < HeaderLen(k) then None
    else
      var h, s1 := s[..HeaderLen(k)], s[HeaderLen(k)..];
      var n := FieldLen(k, h, 0);
      if |s1| < n then None
      else if k != KUdpReply then Some((Rebuild(k, h, [s1[..n]]), s1[n..]))
      else if !hostPort(s1[..n]) then None
      else
        var s2, m := s1[n..], FieldLen(k, h, 1);
        if |s2| < m then None else Some((Rebuild(k, h, [s1[..n], s2[..m]]), s2[m..]))
  }

  lemma FieldLens(m: Message)
    requires forall i :: 0 <= i < |m.Fields()| ==> |m.Fields()[i]| <= MAX_FIELD
    ensures forall i :: 0 <= i < |m.Fields()| ==> FieldLen(m.Kind(), m.Header(), i) == |m.Fields()[i]|
  {
    Widths();
    assert |m.Fields()[0]| <= MAX_FIELD;
    match m {
      case OpenHeader(kind, strategy, target) => FieldBetween([kind, strategy], |target|, [], m.Header());
      case Status(status, text) => FieldBetween([status], |text|, [], m.Header());
      case StatusCode(status, code, text) => FieldBetween([status, code], |text|, [], m.Header());
      case Chunk(data) => FieldBetween([], |data|, [], m.Header());
      case UdpReply(addr, data) =>
        assert |m.Fields()[1]| <= MAX_FIELD;
        FieldBetween([], |addr|, Be(|data|, 2), m.Header());
        FieldBetween(Be(|addr|, 2), |data|, [], m.Header());
    }
  }

  lemma FieldBetween(a: Bytes, n: nat, b: Bytes, h: Bytes)
    requires n <= MAX_FIELD && h == a + Be(n, 2) + b
    ensures Num(h[|a|..|a| + 2]) == n
  {
    Widths();
    NumBetween(a, n, 2, b);
  }

  lemma ParseSingle(k: Kind, hostPort: Bytes -> bool, h: Bytes, f: Bytes, rest: Bytes)
    requires k != KUdpReply && |h| == HeaderLen(k) && FieldLen(k, h, 0) == |f|
    ensures Parse(k, hostPort, h + (f + rest)) == Some((Rebuild(k, h, [f]), rest))
  {
    SliceLeft(h, f + rest, 0, |h|);
    DropLeft(h, f + rest);
    SliceLeft(f, rest, 0, |f|);
    DropLeft(f, rest);
  }

  lemma ParsePair(hostPort: Bytes -> bool, h: Bytes, f: Bytes, g: Bytes, rest: Bytes)
    requires |h| == 4 && FieldLen(KUdpReply, h, 0) == |f| && FieldLen(KUdpReply, h, 1) == |g| && hostPort(f)
    ensures Parse(KUdpReply, hostPort, h + (f + (g + rest))) == Some((UdpReply(f, g), rest))
  {
    var tail := g + rest;
    SliceLeft(h, f + tail, 0, |h|);
    DropLeft(h, f + tail);
    SliceLeft(f, tail, 0, |f|);
    DropLeft(f, tail);
    SliceLeft(g, rest, 0, |g|);
    DropLeft(g, rest);
  }

  /** A sent message reads back unchanged and leaves exactly the bytes after it. */
  lemma RoundTrip(m: Message, hostPort: Bytes -> bool, rest: Bytes)
    requires m.Sendable(hostPort)
    ensures Parse(m.Kind(), hostPort, m.Wire() + rest) == Some((m, rest))
  {
    FieldLens(m);
    var h, f := m.Header(), m.Fields()[0];
    if m.UdpReply? {
      var g := m.Fields()[1];
      WireOfPair(h, f, g, rest);
      ParsePair(hostPort, h, f, g, rest);
    } else {
      WireOfSingle(h, f, rest);
      ParseSingle(m.Kind(), hostPort, h, f, rest);
    }
  }

  lemma WireOfSingle(h: Bytes, f: Bytes, rest: Bytes)
    ensures h + Concat([f]) + rest == h + (f + rest)
  {
    assert Concat([f]) == f + Concat([]);
  }

  lemma WireOfPair(h: Bytes, f: Bytes, g: Bytes, rest: Bytes)
    ensures h + Concat([f, g]) + rest == h + (f + (g + rest))
  {
    assert [f, g][1..] == [g] && Concat([g]) == g + Concat([]);
    assert Concat([f, g]) == f + g;
  }

  // ---- conversations ---------------------------------------------------------------------------

  ghost function WireOf(ms: seq<Message>): Bytes {
    if ms == [] then [] else ms[0].Wire() + WireOf(ms[1..])
  }

  lemma {:induction false} WireSnoc(ms: seq<Message>, m: Message)
    ensures WireOf(ms + [m]) == WireOf(ms) + m.Wire()
  {
    if ms == [] {
      assert ms + [m] == [m] && [m][1..] == [];
    } else {
      assert (ms + [m])[1..] == ms[1..] + [m];
      WireSnoc(ms[1..], m);
    }
  }
}
