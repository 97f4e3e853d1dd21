/**
 * The per-session timestamp cache (internal/app/tai64n_cache.go): a map and a list kept together, least
 * recently used first out.
 */
module Tai64nCache {
  import opened Bytes
  import opened Outcomes

  // ---- timestamps (internal/wire/protocol_tai64n.go) --------------------------------------------

  const TAI64_BASE := 0x4000_0000_0000_0000
  const NANOS := 1_000_000_000

  /** DecodeTAI64N, in nanoseconds since the Unix epoch. */
  function DecodeTai64n(b: Bytes): Option<int> {
    if |b| != 12 then None
    else
      Widths();
      var sec, nanos := Num(b[..8]), Num(b[8..]);
      if sec < TAI64_BASE || nanos >= NANOS then None
      else Some(I64OfU64(sec - TAI64_BASE) * NANOS + nanos)
  }

  /** EncodeTAI64N, of a second and a nanosecond within it. */
  function EncodeTai64n(sec: i64, nanos: nat): (b: Bytes)
    ensures |b| == 12
  {
    Be((U64OfI64(sec) + TAI64_BASE) % 0x1_0000_0000_0000_0000, 8) + Be(nanos, 4)
  }

  /** A stamp is read back as the time it was made from, except in the 2^62 seconds before the epoch. */
  lemma StampRoundTrip(sec: i64, nanos: nat)
    requires nanos < NANOS
    ensures DecodeTai64n(EncodeTai64n(sec, nanos)) == Some(sec * NANOS + nanos) <==> 0 <= sec || sec < -TAI64_BASE
  {
    hide Be, Num, Pow256;
    StampParts((U64OfI64(sec) + TAI64_BASE) % 0x1_0000_0000_0000_0000, nanos);
  }

  /** Only the stamps of times are decoded, each to its own time. */
  lemma DecodedIsStamp(b: Bytes) returns (sec: i64, nanos: nat)
    requires DecodeTai64n(b).Some?
    ensures nanos < NANOS && b == EncodeTai64n(sec, nanos) && DecodeTai64n(b).value == sec * NANOS + nanos
  {
    BeOfNum(b[..8]);
    BeOfNum(b[8..]);
    Widths();
    hide Be, Num, Pow256;
    sec, nanos := I64OfU64(Num(b[..8]) - TAI64_BASE), Num(b[8..]);
    BaseAndBack(Num(b[..8]));
    assert b == b[..8] + b[8..];
  }

  lemma BaseAndBack(s: u64)
    requires s >= TAI64_BASE
    ensures (U64OfI64(I64OfU64(s - TAI64_BASE)) + TAI64_BASE) % 0x1_0000_0000_0000_0000 == s
  {
  }

  lemma StampParts(s: u64, nanos: nat)
    requires nanos < NANOS
    ensures var b := Be(s, 8) + Be(nanos, 4); Num(b[..8]) == s && Num(b[8..]) == nanos
  {
    var b := Be(s, 8) + Be(nanos, 4);
    Widths();
    NumOfBe(s, 8);
    NumOfBe(nanos, 4);
    hide Be, Num, Pow256;
    assert b[..8] == Be(s, 8) && b[8..] == Be(nanos, 4);
  }

  /** Inside the freshness window; a skew that is not positive disables the check. */
  predicate Timely(b: Bytes, now: int, skew: int) {
    match DecodeTai64n(b)
    case None => false
    case Some(t) => skew > 0 ==> now - skew <= t <= now + skew
  }

  /** A stamp made at or after the epoch is timely exactly when its time is at most a skew away, either way. */
  lemma StampTimelyIff(sec: i64, nanos: nat, now: int, skew: int)
    requires 0 <= sec && nanos < NANOS
    ensures var away := sec * NANOS + nanos - now;
            Timely(EncodeTai64n(sec, nanos), now, skew) <==> skew <= 0 || -skew <= away <= skew
  {
    hide DecodeTai64n, EncodeTai64n;
    StampRoundTrip(sec, nanos);
  }

  // ---- the contents, newest first ---------------------------------------------------------------

  datatype Entry = Entry(session: Bytes, stamp: Bytes)

  function Without(es: seq<Entry>, session: Bytes): seq<Entry> {
    if es == [] then []
    else (if es[0].session == session then [] else [es[0]]) + Without(es[1..], session)
  }

  predicate Has(es: seq<Entry>, session: Bytes) {
    exists i :: 0 <= i < |es| && es[i].session == session
  }

  ghost predicate Distinct(es: seq<Entry>) {
    forall i, j :: 0 <= i < j < |es| ==> es[i].session != es[j].session
  }

  /** What an accepted call leaves. */
  function Touched(es: seq<Entry>, capacity: nat, e: Entry): seq<Entry> {
    if Has(es, e.session) then [e] + Without(es, e.session)
    else [e] + if |es| >= capacity && es != [] then es[..|es| - 1] else es
  }

  lemma {:induction false} WithoutAbsent(es: seq<Entry>, session: Bytes)
    requires !Has(es, session)
    ensures Without(es, session) == es
  {
    if es != [] {
      assert es[0].session != session;
      assert forall i :: 0 <= i < |es[1..]| ==> es[1..][i] == es[i + 1];
      WithoutAbsent(es[1..], session);
    }
  }

  lemma {:induction false} WithoutAt(es: seq<Entry>, k: nat)
    requires Distinct(es) && k < |es|
    ensures Without(es, es[k].session) == es[..k] + es[k + 1..]
  {
    if k == 0 {
      assert !Has(es[1..], es[0].session);
      WithoutAbsent(es[1..], es[0].session);
    } else {
      WithoutAt(es[1..], k - 1);
      assert es[0].session != es[k].session;
      assert es[..k] + es[k + 1..] == [es[0]] + (es[1..][..k - 1] + es[1..][k..]);
    }
  }

  // ---- the cache ---------------------------------------------------------------------------------

  class Element {
    const session: Bytes
    var stamp: Bytes

    constructor (session: Bytes, stamp: Bytes)
      ensures this.session == session && this.stamp == stamp
    {
      this.session, this.stamp := session, stamp;
    }
  }

  /** Map and list are in bijection. */
  ghost predicate Linked(items: map<Bytes, Element>, evict: seq<Element>) {
    && (forall i :: 0 <= i < |evict| ==> evict[i].session in items && items[evict[i].session] == evict[i])
    && (forall k :: k in items ==> items[k] in evict && items[k].session == k)
    && (forall i, j :: 0 <= i < j < |evict| ==> evict[i] != evict[j])
  }

  lemma LinkFront(items: map<Bytes, Element>, evict: seq<Element>, elem: Element)
    requires Linked(items, evict) && elem.session !in items
    ensures Linked(items[elem.session := elem], [elem] + evict)
  {
    var items', evict' := items[elem.session := elem], [elem] + evict;
    assert forall i :: 0 < i < |evict'| ==> evict'[i] == evict[i - 1];
    assert forall e :: e in evict ==> e in evict';
  }

  lemma LinkMoved(items: map<Bytes, Element>, evict: seq<Element>, k: nat)
    requires Linked(items, evict) && k < |evict|
    ensures Linked(items, Moved(evict, k)) && forall e <- Moved(evict, k) :: e in evict
  {
    MovedSame(evict, k);
    hide Moved;
    var evict' := Moved(evict, k);
    forall i | 0 <= i < |evict'|
      ensures evict'[i].session in items && items[evict'[i].session] == evict'[i]
    {
      assert evict'[i] in evict';
    }
  }

  lemma LinkShorter(items: map<Bytes, Element>, evict: seq<Element>)
    requires Linked(items, evict) && evict != []
    ensures Linked(items - {evict[|evict| - 1].session}, evict[..|evict| - 1])
  {
    var n := |evict| - 1;
    forall s | s in items && s != evict[n].session
      ensures items[s] in evict[..n]
    {
      var i :| 0 <= i < |evict| && evict[i] == items[s];
      assert i != n;
      assert evict[..n][i] == items[s];
    }
  }

  class Cache {
    const capacity: nat
    var items: map<Bytes, Element>
    var evict: seq<Element>   // container/list, front first

    /** ... and within capacity. */
    ghost predicate Valid()
      reads this
    {
      && 0 < capacity && |evict| <= capacity
      && Linked(items, evict)
    }

    ghost function Contents(): (es: seq<Entry>)
      reads this, evict
      ensures |es| == |evict|
      ensures forall i :: 0 <= i < |evict| ==> es[i] == Entry(evict[i].session, evict[i].stamp)
    {
      seq(|evict|, i requires 0 <= i < |evict| reads this, evict => Entry(evict[i].session, evict[i].stamp))
    }

    constructor (capacity: int)
      ensures Valid() && Contents() == [] && evict == []
      ensures this.capacity == if capacity <= 0 then 65536 else capacity
    {
      this.capacity := if capacity <= 0 then 65536 else capacity;
      items, evict := map[], [];
    }

    lemma SessionsDistinct()
      requires Valid()
      ensures Distinct(Contents())
      ensures forall s :: Has(Contents(), s) <==> s in items
    {
      forall i, j | 0 <= i < j < |evict|
        ensures evict[i].session != evict[j].session
      {
      }
      forall s
        ensures Has(Contents(), s) <==> s in items
      {
        if s in items {
          var i :| 0 <= i < |evict| && evict[i] == items[s];
          assert Contents()[i].session == s;
        }
      }
    }

    /** CheckAndStore */
    method CheckAndStore(session: Bytes, tai64n: Bytes, now: int, skew: int) returns (ok: bool)
      requires Valid()
      modifies this, evict
      ensures Valid() && (forall e <- evict :: e in old(evict) || fresh(e))
      ensures ok <==> |session| == 16 && Timely(tai64n, now, skew)
      ensures Contents() == if ok then Touched(old(Contents()), capacity, Entry(session, tai64n)) else old(Contents())
    {
      if |session| != 16 || !Timely(tai64n, now, skew) {
        return false;
      }
      SessionsDistinct();
      if session in items {
        Refresh(session, tai64n);
        return true;
      }
      if |evict| >= capacity {
        DropBack();
      }
      PushFront(session, tai64n);
      return true;
    }

    /** Lines 65-69: update the entry and move it to the front. */
    method Refresh(session: Bytes, stamp: Bytes)
      requires Valid() && session in items
      modifies this`evict, evict
      ensures Valid() && (forall e <- evict :: e in old(evict))
      ensures Contents() == [Entry(session, stamp)] + Without(old(Contents()), session)
    {
      hide Without, Moved;
      SessionsDistinct();
      var elem := items[session];
      var k :| 0 <= k < |evict| && evict[k] == elem;
      WithoutAt(Contents(), k);
      SetStamp(k, stamp);
      MoveToFront(k);
      MovedUpdate(old(Contents()), k, Entry(session, stamp));
    }

    method SetStamp(k: nat, stamp: Bytes)
      requires Valid() && k < |evict|
      modifies evict[k]
      ensures Valid() && Contents() == old(Contents())[k := Entry(evict[k].session, stamp)]
    {
      evict[k].stamp := stamp;
    }

    method MoveToFront(k: nat)
      requires Valid() && k < |evict|
      modifies this`evict
      ensures Valid() && (forall e <- evict :: e in old(evict))
      ensures Contents() == Moved(old(Contents()), k)
    {
      LinkMoved(items, evict, k);
      hide Linked, Cache.Contents, Moved;
      evict := Moved(evict, k);
    }

    /** Lines 73-79: drop the oldest entry. */
    method DropBack()
      requires Valid() && evict != []
      modifies this
      ensures Valid() && |evict| == old(|evict|) - 1 && evict == old(evict)[..|evict|]
      ensures Contents() == old(Contents())[..|evict|]
      ensures forall s :: s in items ==> s in old(items)
    {
      LinkShorter(items, evict);
      hide Linked, Cache.Contents;
      var oldest := evict[|evict| - 1];
      evict := evict[..|evict| - 1];
      items := items - {oldest.session};
    }

    /** Lines 82-87 */
    method PushFront(session: Bytes, stamp: Bytes)
      requires Valid() && session !in items && |evict| < capacity
      modifies this
      ensures Valid() && (forall e <- evict :: e in old(evict) || fresh(e))
      ensures Contents() == [Entry(session, stamp)] + old(Contents())
    {
      hide Linked, Cache.Contents;
      var elem := new Element(session, stamp);
      Link(elem);
    }

    /** Put a new element into the map and at the front of the list. */
    method Link(elem: Element)
      requires Valid() && elem.session !in items && |evict| < capacity
      modifies this
      ensures Valid() && evict == [elem] + old(evict)
      ensures Contents() == [Entry(elem.session, elem.stamp)] + old(Contents())
    {
      LinkFront(items, evict, elem);
      hide Linked, Cache.Contents;
      evict := [elem] + evict;
      items := items[elem.session := elem];
    }
  }

  /** The k-th element of a list moved to its front. */
  function Moved<T>(s: seq<T>, k: nat): (r: seq<T>)
    requires k < |s|
    ensures |r| == |s| && r[0] == s[k]
    ensures forall i :: 0 < i < |r| ==> r[i] == if i <= k then s[i - 1] else s[i]
  {
    seq(|s|, i requires 0 <= i < |s| => if i == 0 then s[k] else if i <= k then s[i - 1] else s[i])
  }

  lemma MovedSame<T>(s: seq<T>, k: nat)
    requires k < |s|
    ensures forall e :: e in Moved(s, k) <==> e in s
    ensures (forall i, j :: 0 <= i < j < |s| ==> s[i] != s[j]) ==>
              forall i, j :: 0 <= i < j < |s| ==> Moved(s, k)[i] != Moved(s, k)[j]
  {
    forall e | e in s
      ensures e in Moved(s, k)
    {
      var i :| 0 <= i < |s| && s[i] == e;
      assert Moved(s, k)[if i == k then 0 else if i < k then i + 1 else i] == e;
    }
  }

  lemma MovedUpdate(es: seq<Entry>, k: nat, e: Entry)
    requires k < |es|
    ensures Moved(es[k := e], k) == [e] + (es[..k] + es[k + 1..])
  {
  }

  // ---- whole runs --------------------------------------------------------------------------------

  datatype Call = Call(session: Bytes, tai64n: Bytes, now: int)

  predicate Accepts(c: Call, skew: int) {
    |c.session| == 16 && Timely(c.tai64n, c.now, skew)
  }

  /** The contents after a run of calls, from an empty cache. */
  ghost function ContentsAfter(capacity: nat, skew: int, calls: seq<Call>): seq<Entry> {
    if calls == [] then []
    else
      var before, c := ContentsAfter(capacity, skew, calls[..|calls| - 1]), calls[|calls| - 1];
      if Accepts(c, skew) then Touched(before, capacity, Entry(c.session, c.tai64n)) else before
  }

  /** Every session ever accepted, most recent first, each with its latest accepted timestamp. */
  ghost function Recent(skew: int, calls: seq<Call>): seq<Entry> {
    if calls == [] then []
    else
      var before, c := Recent(skew, calls[..|calls| - 1]), calls[|calls| - 1];
      if Accepts(c, skew) then [Entry(c.session, c.tai64n)] + Without(before, c.session) else before
  }

  function First(es: seq<Entry>, n: nat): seq<Entry> {
    if |es| <= n then es else es[..n]
  }

  lemma {:induction false} WithoutDistinct(es: seq<Entry>, session: Bytes)
    requires Distinct(es)
    ensures Distinct(Without(es, session)) && !Has(Without(es, session), session)
  {
    if k :| 0 <= k < |es| && es[k].session == session {
      WithoutAt(es, k);
    } else {
      WithoutAbsent(es, session);
    }
  }

  /** Taking one element out of the part that is kept. */
  lemma CutInside(all: seq<Entry>, n: nat, k: nat, e: Entry)
    requires k < |all| && k < n
    ensures var some := First(all, n);
            [e] + (some[..k] + some[k + 1..]) == First([e] + (all[..k] + all[k + 1..]), n)
  {
    var some, cut := First(all, n), all[..k] + all[k + 1..];
    assert some[..k] == all[..k];
    if |all| > n {
      assert cut[..n - 1] == all[..k] + all[k + 1..][..n - 1 - k];
      assert all[k + 1..][..n - 1 - k] == all[..n][k + 1..];
      assert ([e] + cut)[..n] == [e] + cut[..n - 1];
    }
  }

  /** Taking one element out of the part that is cut off. */
  lemma CutOutside(all: seq<Entry>, n: nat, k: nat, e: Entry)
    requires n <= k < |all| && 0 < n
    ensures [e] + all[..n - 1] == First([e] + (all[..k] + all[k + 1..]), n)
  {
    var cut := all[..k] + all[k + 1..];
    assert cut[..n - 1] == all[..n - 1];
    assert ([e] + cut)[..n] == [e] + cut[..n - 1];
  }

  /** Moving to the front and cutting off at the capacity commute. */
  lemma TouchFirst(all: seq<Entry>, capacity: nat, e: Entry)
    requires Distinct(all) && 0 < capacity
    ensures Touched(First(all, capacity), capacity, e) == First([e] + Without(all, e.session), capacity)
  {
    hide Without;
    var some := First(all, capacity);
    assert forall i :: 0 <= i < |some| ==> some[i] == all[i];
    if k :| 0 <= k < |all| && all[k].session == e.session {
      WithoutAt(all, k);
      if k < |some| {
        assert some[k].session == e.session;
        WithoutAt(some, k);
        CutInside(all, capacity, k, e);
      } else {
        assert !Has(some, e.session);
        CutOutside(all, capacity, k, e);
        assert some[..|some| - 1] == all[..capacity - 1];
      }
    } else {
      WithoutAbsent(all, e.session);
      assert !Has(some, e.session);
      if |all| >= capacity {
        assert ([e] + all)[..capacity] == [e] + all[..capacity - 1];
        assert some[..|some| - 1] == all[..capacity - 1];
      }
    }
  }

  lemma {:induction false} RecentDistinct(skew: int, calls: seq<Call>)
    ensures Distinct(Recent(skew, calls))
  {
    if calls != [] {
      RecentDistinct(skew, calls[..|calls| - 1]);
      WithoutDistinct(Recent(skew, calls[..|calls| - 1]), calls[|calls| - 1].session);
    }
  }

  /** The cache holds exactly the most recently accepted sessions, newest first, up to its capacity. */
  lemma {:induction false} HoldsMostRecent(capacity: nat, skew: int, calls: seq<Call>)
    requires 0 < capacity
    ensures ContentsAfter(capacity, skew, calls) == First(Recent(skew, calls), capacity)
  {
    if calls != [] {
      var before, c := calls[..|calls| - 1], calls[|calls| - 1];
      HoldsMostRecent(capacity, skew, before);
      RecentDistinct(skew, before);
      TouchFirst(Recent(skew, before), capacity, Entry(c.session, c.tai64n));
    }
  }

  /** The map and list, driven through any run, hold just that. */
  method Run(capacity: int, skew: int, calls: seq<Call>) returns (c: Cache, oks: seq<bool>)
    ensures c.Valid() && |oks| == |calls| && c.capacity == (if capacity <= 0 then 65536 else capacity)
    ensures forall i :: 0 <= i < |calls| ==> (oks[i] <==> Accepts(calls[i], skew))
    ensures c.Contents() == First(Recent(skew, calls), c.capacity)
  {
    hide Touched, Timely, First, Recent, Linked;
    c := new Cache(capacity);
    oks := [];
    for i := 0 to |calls|
      invariant c.Valid() && fresh(c) && (forall k :: 0 <= k < |c.evict| ==> fresh(c.evict[k]))
      invariant |oks| == i && c.Contents() == ContentsAfter(c.capacity, skew, calls[..i])
      invariant forall j :: 0 <= j < i ==> (oks[j] <==> Accepts(calls[j], skew))
    {
      var ok := c.CheckAndStore(calls[i].session, calls[i].tai64n, calls[i].now, skew);
      oks := oks + [ok];
      assert forall k :: 0 <= k < |c.evict| ==> c.evict[k] in c.evict;
      assert calls[..i + 1][..i] == calls[..i];
    }
    assert calls[..|calls|] == calls;
    HoldsMostRecent(c.capacity, skew, calls);
  }
}
