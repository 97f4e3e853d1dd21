/**
 * Two walkers over compressed DNS names (section 4.1.4 of RFC 1035): parseDNSName in
 * internal/app/dnssniff.go, which counts pointer hops, and skipDNSName in internal/app/tls_ech_dns.go,
 * which remembers the offsets it has visited.
 */
module DnsNames {
  import opened Bytes
  import opened Outcomes

  const MAX_HOPS := 128

  /** What stands at an offset of a message. */
  datatype Item = Bad | End | Label(len: nat) | Pointer(target: nat)

  function ItemAt(msg: Bytes, pos: nat): (it: Item)
    ensures it.Label? ==> 1 <= it.len < 64 && pos + 1 + it.len <= |msg|
    ensures it.End? ==> pos < |msg|
    ensures it.Pointer? ==> pos + 1 < |msg|
  {
    if pos >= |msg| then Bad
    else
      var l: nat := msg[pos];
      if l >= 0xC0 then
        if pos + 1 >= |msg| then Bad else Pointer((l - 0xC0) * 256 + msg[pos + 1])
      else if l >= 0x40 then Bad
      else if l == 0 then End
      else if pos + 1 + l > |msg| then Bad
      else Label(l)
  }

  // ---- the reference: where the walk from an offset leads --------------------------------------

  /** The walk from `pos` comes to a terminator after `steps` labels and pointers, `hops` of them pointers. */
  ghost predicate Ends(msg: Bytes, pos: nat, steps: nat, hops: nat)
    decreases steps
  {
    match ItemAt(msg, pos)
    case Bad => false
    case End => steps == 0 && hops == 0
    case Label(n) => steps > 0 && Ends(msg, pos + 1 + n, steps - 1, hops)
    case Pointer(t) => steps > 0 && hops > 0 && Ends(msg, t, steps - 1, hops - 1)
  }

  lemma {:induction false} EndsUnique(msg: Bytes, pos: nat, s: nat, h: nat, s': nat, h': nat)
    requires Ends(msg, pos, s, h) && Ends(msg, pos, s', h')
    ensures s == s' && h == h'
    decreases s
  {
    match ItemAt(msg, pos) {
      case End =>
      case Label(n) => EndsUnique(msg, pos + 1 + n, s - 1, h, s' - 1, h');
      case Pointer(t) => EndsUnique(msg, t, s - 1, h - 1, s' - 1, h' - 1);
    }
  }

  /** The walk from `pos` comes to an end. */
  ghost predicate Terminates(msg: Bytes, pos: nat) {
    exists s: nat, h: nat :: Ends(msg, pos, s, h)
  }

  /** ... after fewer than 128 pointers. */
  ghost predicate TerminatesSoon(msg: Bytes, pos: nat) {
    exists s: nat, h: nat :: Ends(msg, pos, s, h) && h < MAX_HOPS
  }

  /** Where the name that starts at `pos` stops in place: after its terminator or its first pointer. */
  function InPlaceEnd(msg: Bytes, pos: nat): (e: nat)
    ensures e >= pos
    decreases |msg| - pos
  {
    match ItemAt(msg, pos)
    case Bad => pos
    case End => pos + 1
    case Label(n) => InPlaceEnd(msg, pos + 1 + n)
    case Pointer(_) => pos + 2
  }

  // ---- parseDNSName ----------------------------------------------------------------------------

  /** The labels of the name at `pos`, with `hops` pointers already followed. */
  function LabelsFrom(msg: Bytes, pos: nat, hops: nat): Option<seq<Bytes>>
    requires hops <= MAX_HOPS
    decreases MAX_HOPS - hops, |msg| - pos
  {
    if hops == MAX_HOPS then None
    else match ItemAt(msg, pos)
      case Bad => None
      case End => Some([])
      case Pointer(t) => LabelsFrom(msg, t, hops + 1)
      case Label(n) =>
        match LabelsFrom(msg, pos + 1 + n, hops)
        case None => None
        case Some(rest) => Some([msg[pos + 1..pos + 1 + n]] + rest)
  }

  /** The labels and the bytes consumed. */
  function Parsed(msg: Bytes, offset: nat): Option<(seq<Bytes>, nat)> {
    match LabelsFrom(msg, offset, 0)
    case None => None
    case Some(labels) => Some((labels, InPlaceEnd(msg, offset) - offset))
  }

  function Prepend(labels: seq<Bytes>, r: Option<seq<Bytes>>): Option<seq<Bytes>> {
    match r
    case None => None
    case Some(more) => Some(labels + more)
  }

  lemma PrependFacts(labels: seq<Bytes>, x: Bytes, r: Option<seq<Bytes>>)
    ensures Prepend([], r) == r
    ensures Prepend(labels + [x], r) == Prepend(labels, Prepend([x], r))
  {
    if r.Some? {
      assert [] + r.value == r.value;
      assert labels + [x] + r.value == labels + ([x] + r.value);
    }
  }

  /** What the loop of parseDNSName keeps. */
  ghost predicate Walking(msg: Bytes, offset: nat, labels: seq<Bytes>, pos: nat, hops: nat, ptr: bool, consumed: nat) {
    && hops <= MAX_HOPS
    && Prepend(labels, LabelsFrom(msg, pos, hops)) == LabelsFrom(msg, offset, 0)
    && if ptr then offset + consumed == InPlaceEnd(msg, offset)
       else pos >= offset && InPlaceEnd(msg, pos) == InPlaceEnd(msg, offset)
  }

  lemma WalkLabel(msg: Bytes, offset: nat, labels: seq<Bytes>, pos: nat, hops: nat, ptr: bool, consumed: nat, n: nat)
    requires Walking(msg, offset, labels, pos, hops, ptr, consumed) && hops < MAX_HOPS && ItemAt(msg, pos) == Label(n)
    ensures Walking(msg, offset, labels + [msg[pos + 1..pos + 1 + n]], pos + 1 + n, hops, ptr, consumed)
  {
    PrependFacts(labels, msg[pos + 1..pos + 1 + n], LabelsFrom(msg, pos + 1 + n, hops));
  }

  lemma WalkPointer(msg: Bytes, offset: nat, labels: seq<Bytes>, pos: nat, hops: nat, ptr: bool, consumed: nat, t: nat)
    requires Walking(msg, offset, labels, pos, hops, ptr, consumed) && hops < MAX_HOPS && ItemAt(msg, pos) == Pointer(t)
    ensures ptr || pos >= offset
    ensures Walking(msg, offset, labels, t, hops + 1, true, if ptr then consumed else pos + 2 - offset)
  {
  }

  lemma WalkDone(msg: Bytes, offset: nat, labels: seq<Bytes>, pos: nat, hops: nat, ptr: bool, consumed: nat)
    requires Walking(msg, offset, labels, pos, hops, ptr, consumed)
    ensures ptr || pos >= offset
    ensures hops == MAX_HOPS || ItemAt(msg, pos) == Bad ==> Parsed(msg, offset) == None
    ensures hops < MAX_HOPS && ItemAt(msg, pos) == End ==>
              Parsed(msg, offset) == Some((labels, if ptr then consumed else pos + 1 - offset))
  {
    assert labels + [] == labels;
  }

  method ParseName(msg: Bytes, offset: nat) returns (r: Option<(seq<Bytes>, nat)>)
    ensures r == Parsed(msg, offset)
  {
    if offset >= |msg| {
      return None;
    }
    var labels: seq<Bytes>, pos: nat, consumed: nat, ptr, hops: nat := [], offset, 0, false, 0;
    PrependFacts([], [], LabelsFrom(msg, offset, 0));
    assert Walking(msg, offset, labels, pos, hops, ptr, consumed);
    hide Walking, Parsed, LabelsFrom, InPlaceEnd;
    while hops < MAX_HOPS
      invariant hops <= MAX_HOPS && Walking(msg, offset, labels, pos, hops, ptr, consumed)
      decreases MAX_HOPS - hops, |msg| - pos
    {
      WalkDone(msg, offset, labels, pos, hops, ptr, consumed);
      if pos >= |msg| {
        return None;
      }
      var l: nat := msg[pos];
      if l >= 0xC0 {
        if pos + 1 >= |msg| {
          return None;
        }
        var target := (l - 0xC0) * 256 + msg[pos + 1];
        WalkPointer(msg, offset, labels, pos, hops, ptr, consumed, target);
        if !ptr {
          consumed := pos + 2 - offset;
          ptr := true;
        }
        pos := target;
        hops := hops + 1;
      } else if l >= 0x40 {
        return None;
      } else if l == 0 {
        if !ptr {
          consumed := pos + 1 - offset;
        }
        return Some((labels, consumed));
      } else {
        if pos + 1 + l <= |msg| {
          WalkLabel(msg, offset, labels, pos, hops, ptr, consumed, l);
        }
        pos := pos + 1;
        if pos + l > |msg| {
          return None;
        }
        labels := labels + [msg[pos..pos + l]];
        pos := pos + l;
      }
    }
    WalkDone(msg, offset, labels, pos, hops, ptr, consumed);
    return None;
  }

  lemma {:induction false} LabelsEnds(msg: Bytes, pos: nat, k: nat) returns (s: nat, h: nat)
    requires k <= MAX_HOPS && LabelsFrom(msg, pos, k).Some?
    ensures Ends(msg, pos, s, h) && k + h < MAX_HOPS
    decreases MAX_HOPS - k, |msg| - pos
  {
    match ItemAt(msg, pos) {
      case End =>
        s, h := 0, 0;
      case Label(n) =>
        s, h := LabelsEnds(msg, pos + 1 + n, k);
        s := s + 1;
      case Pointer(t) =>
        s, h := LabelsEnds(msg, t, k + 1);
        s, h := s + 1, h + 1;
    }
  }

  lemma {:induction false} EndsLabels(msg: Bytes, pos: nat, k: nat, s: nat, h: nat)
    requires k + h < MAX_HOPS && Ends(msg, pos, s, h)
    ensures LabelsFrom(msg, pos, k).Some?
    decreases s
  {
    match ItemAt(msg, pos) {
      case End =>
      case Label(n) => EndsLabels(msg, pos + 1 + n, k, s - 1, h);
      case Pointer(t) => EndsLabels(msg, t, k + 1, s - 1, h - 1);
    }
  }

  // ---- skipDNSName -----------------------------------------------------------------------------

  ghost predicate InMessage(msg: Bytes, seen: set<nat>) {
    forall p <- seen :: p < |msg|
  }

  lemma {:induction false} SeenBounded(msg: Bytes, seen: set<nat>)
    requires InMessage(msg, seen)
    ensures |seen| <= |msg|
  {
    Below(seen, |msg|);
  }

  lemma {:induction false} Below(s: set<nat>, n: nat)
    requires forall x <- s :: x < n
    ensures |s| <= n
  {
    if n > 0 {
      Below(s - {n - 1}, n - 1);
    }
  }

  /** Whether the walk from `pos` succeeds when the offsets in `seen` were visited before. */
  ghost predicate Skips(msg: Bytes, pos: nat, seen: set<nat>)
    requires InMessage(msg, seen)
    decreases |msg| - |seen|
  {
    if pos >= |msg| || pos in seen then false
    else
      SeenBounded(msg, seen + {pos});
      match ItemAt(msg, pos)
      case Bad => false
      case End => true
      case Label(n) => Skips(msg, pos + 1 + n, seen + {pos})
      case Pointer(t) => t < |msg| && Skips(msg, t, seen + {pos})
  }

  method SkipName(msg: Bytes, start: int) returns (r: Option<nat>)
    ensures r == if start >= 0 && Skips(msg, start, {}) then Some(InPlaceEnd(msg, start)) else None
  {
    if start < 0 || start >= |msg| {
      return None;
    }
    var offset: nat, next, seen: set<nat> := start, -1, {};
    while true
      invariant InMessage(msg, seen) && Skips(msg, offset, seen) == Skips(msg, start, {})
      invariant if next == -1 then InPlaceEnd(msg, offset) == InPlaceEnd(msg, start) else next == InPlaceEnd(msg, start)
      decreases |msg| - |seen|
    {
      if offset >= |msg| {
        return None;
      }
      if offset in seen {
        return None;
      }
      seen := seen + {offset};
      SeenBounded(msg, seen);
      var length: nat := msg[offset];
      if length < 0x40 {
        if length == 0 {
          offset := offset + 1;
          if next != -1 {
            return Some(next);
          }
          return Some(offset);
        }
        offset := offset + 1;
        if offset + length > |msg| {
          return None;
        }
        offset := offset + length;
      } else if length >= 0xC0 {
        if offset + 1 >= |msg| {
          return None;
        }
        var pointer := (length - 0xC0) * 256 + msg[offset + 1];
        if pointer >= |msg| {
          return None;
        }
        if next == -1 {
          next := offset + 2;
        }
        offset := pointer;
      } else {
        return None;
      }
    }
  }

  /** The offsets visited so far are further from the end of the walk. */
  ghost predicate Behind(msg: Bytes, seen: set<nat>, steps: nat) {
    forall p <- seen :: exists s: nat, h: nat :: Ends(msg, p, s, h) && s > steps
  }

  lemma BehindStep(msg: Bytes, pos: nat, seen: set<nat>, s: nat, h: nat)
    requires s > 0 && Ends(msg, pos, s, h) && Behind(msg, seen, s)
    ensures Behind(msg, seen + {pos}, s - 1)
  {
    hide Ends;
    forall p | p in seen + {pos}
      ensures exists s': nat, h': nat :: Ends(msg, p, s', h') && s' > s - 1
    {
      if p == pos {
        assert Ends(msg, p, s, h);
      } else {
        var s': nat, h': nat :| Ends(msg, p, s', h') && s' > s;
      }
    }
  }

  lemma NotBehind(msg: Bytes, pos: nat, seen: set<nat>, s: nat, h: nat)
    requires Ends(msg, pos, s, h) && Behind(msg, seen, s)
    ensures pos !in seen
  {
    hide Ends;
    if pos in seen {
      var s': nat, h': nat :| Ends(msg, pos, s', h') && s' > s;
      EndsUnique(msg, pos, s, h, s', h');
    }
  }

  /** A walk that ends never comes back to an offset, so the visited set never stops it. */
  lemma {:induction false} EndsSkips(msg: Bytes, pos: nat, seen: set<nat>, s: nat, h: nat)
    requires InMessage(msg, seen) && Ends(msg, pos, s, h) && Behind(msg, seen, s)
    ensures Skips(msg, pos, seen)
    decreases s
  {
    hide Behind;
    NotBehind(msg, pos, seen, s, h);
    SeenBounded(msg, seen + {pos});
    if s > 0 {
      BehindStep(msg, pos, seen, s, h);
      match ItemAt(msg, pos) {
        case Label(n) => EndsSkips(msg, pos + 1 + n, seen + {pos}, s - 1, h);
        case Pointer(t) => EndsSkips(msg, t, seen + {pos}, s - 1, h - 1);
      }
    }
  }

  lemma {:induction false} SkipsEnds(msg: Bytes, pos: nat, seen: set<nat>) returns (s: nat, h: nat)
    requires InMessage(msg, seen) && Skips(msg, pos, seen)
    ensures Ends(msg, pos, s, h)
    decreases |msg| - |seen|
  {
    SeenBounded(msg, seen + {pos});
    match ItemAt(msg, pos) {
      case End =>
        s, h := 0, 0;
      case Label(n) =>
        s, h := SkipsEnds(msg, pos + 1 + n, seen + {pos});
        s := s + 1;
      case Pointer(t) =>
        s, h := SkipsEnds(msg, t, seen + {pos});
        s, h := s + 1, h + 1;
    }
  }

  /**
   * The two walkers agree on every message and offset: the skipper succeeds exactly when the walk ends,
   * the parser exactly when it ends after fewer than 128 pointers, and then both name the same end.
   */
  lemma WalkersAgree(msg: Bytes, offset: nat)
    ensures Skips(msg, offset, {}) <==> Terminates(msg, offset)
    ensures Parsed(msg, offset).Some? <==> TerminatesSoon(msg, offset)
    ensures Parsed(msg, offset).Some? ==>
              Skips(msg, offset, {}) && offset + Parsed(msg, offset).value.1 == InPlaceEnd(msg, offset)
  {
    if Skips(msg, offset, {}) {
      var s, h := SkipsEnds(msg, offset, {});
    }
    if Terminates(msg, offset) {
      var s: nat, h: nat :| Ends(msg, offset, s, h);
      EndsSkips(msg, offset, {}, s, h);
    }
    if Parsed(msg, offset).Some? {
      var s, h := LabelsEnds(msg, offset, 0);
    }
    if TerminatesSoon(msg, offset) {
      var s: nat, h: nat :| Ends(msg, offset, s, h) && h < MAX_HOPS;
      EndsLabels(msg, offset, 0, s, h);
    }
  }

  // ---- where they part ---------------------------------------------------------------------------

  /** A terminator at offset 256, and before it 128 pointers, each to the next. */
  function Chain(): Bytes {
    seq(257, i => if i == 256 then 0 else if i % 2 == 0 then 0xC0 + (i + 2) / 256 else (i + 1) % 256)
  }

  lemma ChainItem(k: nat)
    requires k <= 128
    ensures ItemAt(Chain(), 2 * k) == if k < 128 then Pointer(2 * (k + 1)) else End
  {
    if k < 128 {
      var hi, lo := Chain()[2 * k], Chain()[2 * k + 1];
      assert hi == 0xC0 + (2 * k + 2) / 256 && lo == (2 * k + 2) % 256;
    } else {
      assert Chain()[2 * k] == 0;
    }
  }

  lemma {:induction false} ChainEnds(k: nat)
    requires k <= 128
    ensures Ends(Chain(), 2 * k, 128 - k, 128 - k)
    decreases 128 - k
  {
    hide Chain, ItemAt;
    ChainItem(k);
    if k < 128 {
      ChainEnds(k + 1);
    }
  }

  /** The bound on pointers is real: with 128 of them the skipper succeeds and the parser does not; with 127 both do. */
  lemma WalkersPart()
    ensures Skips(Chain(), 0, {}) && Parsed(Chain(), 0).None?
    ensures Skips(Chain(), 2, {}) && Parsed(Chain(), 2).Some?
  {
    ChainEnds(0);
    ChainEnds(1);
    WalkersAgree(Chain(), 2);
    WalkersAgree(Chain(), 0);
    if TerminatesSoon(Chain(), 0) {
      var s: nat, h: nat :| Ends(Chain(), 0, s, h) && h < MAX_HOPS;
      EndsUnique(Chain(), 0, s, h, 128, 128);
    }
  }
}
