/** Whole runs of the server's handshake: exactly when an init is refused as a replay. */
module ServerRuns {
  import opened Bytes
  import Bits
  import opened Outcomes
  import opened Crypto
  import opened Channel
  import opened ChannelFrames
  import opened Transcript
  import opened Handshake
  import N = NonceCache
  import T = Tai64nCache

  /** One connection: what it sends, the clock when that has been read, and the server's own choices for it. */
  datatype Request = Request(
    wire: Bytes, now: int, nowUnix: i64, sessionFree: bool, sk: Bytes, nonce: Bytes, maxStreams: u32)

  type Answer = Result<(Done, Bytes), string>

  /** A server, with what its nonce cache holds when a run begins. */
  datatype Setup = Setup(suite: Suite, cfg: Config, skew: int, max: nat, start: seq<N.Entry>)

  ghost function InitOf(q: Request): Option<ChannelInit> {
    match ReadInitV3(q.wire, MAX_FRAME)
    case Ok((init, _)) => Some(init)
    case Err(_) => None
  }

  /** The triple of session, channel and nonce that a request presents. */
  ghost function TripleOf(q: Request): N.Key {
    match InitOf(q)
    case Some(init) => NonceKey(init)
    case None => N.Key([], 0, [])
  }

  /** The request passes every check that comes before the nonce cache; only such a request touches it. */
  ghost predicate Authentic(s: Setup, q: Request) {
    InitOf(q).Some? && Handshake.Authentic(s.suite, s.cfg, InitOf(q).value, q.now, s.skew)
  }

  /** Everything that the server asks of an authentic request after the nonce cache. */
  ghost predicate Answerable(s: Setup, q: Request) {
    match InitOf(q)
    case None => false
    case Some(init) =>
      && T.Timely(init.tai64n, q.now, s.skew) && q.sessionFree
      && var reply := ServerReply(s.suite, s.cfg, init, q.sk, q.nonce, q.nowUnix, q.maxStreams);
         reply.Ok? && WriteAcceptV3(reply.value.1).Ok?
  }

  // ---- the reference run -------------------------------------------------------------------------

  /** The nonce cache after a run of requests. */
  ghost function ItemsAfter(s: Setup, qs: seq<Request>): seq<N.Entry> {
    if qs == [] then s.start
    else
      var items, q := ItemsAfter(s, qs[..|qs| - 1]), qs[|qs| - 1];
      if Authentic(s, q) then N.After(items, s.max, TripleOf(q), q.now, s.skew) else items
  }

  /** The cache holds the triple of the request that comes after `qs`. */
  ghost predicate Held(s: Setup, qs: seq<Request>, q: Request) {
    N.Holds(N.Purged(ItemsAfter(s, qs), q.now, s.skew), TripleOf(q))
  }

  lemma ItemsSnoc(s: Setup, qs: seq<Request>, q: Request)
    ensures ItemsAfter(s, qs + [q]) ==
            if Authentic(s, q) then N.After(ItemsAfter(s, qs), s.max, TripleOf(q), q.now, s.skew) else ItemsAfter(s, qs)
  {
    hide Authentic, TripleOf;
    assert (qs + [q])[..|qs|] == qs;
  }

  /** Request k is refused as a replay. */
  ghost predicate Replay(s: Setup, qs: seq<Request>, k: nat)
    requires k < |qs|
  {
    Authentic(s, qs[k]) && Held(s, qs[..k], qs[k])
  }

  /** Request k stores its triple. */
  ghost predicate Stores(s: Setup, qs: seq<Request>, k: nat)
    requires k < |qs|
  {
    Authentic(s, qs[k]) && !Held(s, qs[..k], qs[k])
  }

  /** Request k is answered. */
  ghost predicate Answered(s: Setup, qs: seq<Request>, k: nat)
    requires k < |qs|
  {
    Stores(s, qs, k) && Answerable(s, qs[k])
  }

  /** The result for request k says which of these it is. */
  ghost predicate AsDue(s: Setup, qs: seq<Request>, k: nat, r: Answer)
    requires k < |qs|
  {
    (r == Err(REPLAY) <==> Replay(s, qs, k)) && (r.Ok? <==> Answered(s, qs, k))
  }

  /** How many of the requests from the i-th on stored their triple. */
  ghost function StoredSince(s: Setup, qs: seq<Request>, i: nat): nat
    requires i <= |qs|
    decreases |qs|
  {
    if i == |qs| then 0
    else StoredSince(s, qs[..|qs| - 1], i) + if Stores(s, qs, |qs| - 1) then 1 else 0
  }

  // ---- the server --------------------------------------------------------------------------------

  /** One request, in terms of the nonce cache alone. */
  method ServeOne(c: Suite, cfg: Config, q: Request, skew: int, nonces: N.Cache, stamps: T.Cache,
                  ghost qs: seq<Request>, ghost s: Setup)
    returns (r: Answer)
    requires nonces.Valid() && stamps.Valid() && nonces.Items() == ItemsAfter(s, qs)
    requires s.suite == c && s.cfg == cfg && s.skew == skew && s.max == nonces.max
    modifies nonces, stamps, stamps.evict
    ensures nonces.Valid() && stamps.Valid() && (forall e <- stamps.evict :: e in old(stamps.evict) || fresh(e))
    ensures nonces.Items() == ItemsAfter(s, qs + [q])
    ensures r == Err(REPLAY) <==> Authentic(s, q) && Held(s, qs, q)
    ensures r.Ok? <==> Authentic(s, q) && !Held(s, qs, q) && Answerable(s, q)
  {
    ItemsSnoc(s, qs, q);
    hide ReadInitV3, Handshake.Authentic, ServerReply, WriteAcceptV3, N.After, N.Purged, N.Holds, T.Touched, T.Timely;
    hide N.Cache.Valid, T.Cache.Valid, ItemsAfter;
    r := Serve(c, cfg, q.wire, q.now, q.nowUnix, skew, nonces, stamps, q.sessionFree, q.sk, q.nonce, q.maxStreams);
  }

  /** The server, driven through any run of requests, honest or replayed, with whatever clock readings. */
  method ServeAll(c: Suite, cfg: Config, skew: int, nonces: N.Cache, stamps: T.Cache, qs: seq<Request>)
    returns (rs: seq<Answer>)
    requires nonces.Valid() && stamps.Valid()
    modifies nonces, stamps, stamps.evict
    ensures nonces.Valid() && stamps.Valid() && |rs| == |qs|
    ensures var s := Setup(c, cfg, skew, nonces.max, old(nonces.Items()));
            && nonces.Items() == ItemsAfter(s, qs)
            && forall k :: 0 <= k < |qs| ==> AsDue(s, qs, k, rs[k])
  {
    hide ItemsAfter, Authentic, Held, Answerable;
    rs := [];
    ghost var s := Setup(c, cfg, skew, nonces.max, nonces.Items());
    assert ItemsAfter(s, qs[..0]) == s.start by { NothingServed(s); }
    for k := 0 to |qs|
      invariant nonces.Valid() && stamps.Valid() && (forall e <- stamps.evict :: e in old(stamps.evict) || fresh(e))
      invariant |rs| == k && nonces.Items() == ItemsAfter(s, qs[..k])
      invariant forall j :: 0 <= j < k ==> AsDue(s, qs, j, rs[j])
    {
      var r := ServeOne(c, cfg, qs[k], skew, nonces, stamps, qs[..k], s);
      assert qs[..k + 1] == qs[..k] + [qs[k]];
      rs := rs + [r];
    }
    assert qs[..|qs|] == qs;
  }

  lemma NothingServed(s: Setup)
    ensures ItemsAfter(s, []) == s.start
  {
  }

  // ---- whatever the clock does -------------------------------------------------------------------

  /** The triple stored by request i has not expired at any authentic request after it. */
  ghost predicate LiveSince(s: Setup, qs: seq<Request>, i: nat)
    requires i < |qs|
  {
    forall m :: i < m < |qs| && Authentic(s, qs[m]) ==> N.Live(qs[i].now, qs[m].now, s.skew)
  }

  lemma {:induction false} StaysAmongNewest(s: Setup, qs: seq<Request>, i: nat)
    requires i < |qs| && Stores(s, qs, i) && LiveSince(s, qs, i) && StoredSince(s, qs, i) <= s.max
    ensures N.AmongNewest(ItemsAfter(s, qs), N.Entry(TripleOf(qs[i]), qs[i].now), StoredSince(s, qs, i))
    decreases |qs|
  {
    hide N.Purged, N.Holds, N.AmongNewest, N.After, TripleOf, Authentic;
    var n := |qs| - 1;
    var before := qs[..n];
    if i == n {
      assert StoredSince(s, before, n) == 0;
      N.JustStored(ItemsAfter(s, before), s.max, TripleOf(qs[n]), qs[n].now, s.skew);
    } else {
      assert before[..i] == qs[..i];
      StaysAmongNewest(s, before, i);
      if Authentic(s, qs[n]) {
        N.AfterKeeps(ItemsAfter(s, before), s.max, TripleOf(qs[n]), qs[n].now, s.skew,
                     N.Entry(TripleOf(qs[i]), qs[i].now), StoredSince(s, before, i));
      }
    }
  }

  /**
   * A repeat is refused while its triple has not expired at any authentic request in between and fewer
   * than `max` triples were stored since. Requests without a valid proof, and refused replays, count for
   * nothing.
   */
  lemma RepeatRefused(s: Setup, qs: seq<Request>, i: nat, j: nat)
    requires i < j < |qs| && Stores(s, qs, i) && Authentic(s, qs[j]) && TripleOf(qs[j]) == TripleOf(qs[i])
    requires LiveSince(s, qs[..j + 1], i) && StoredSince(s, qs[..j], i) <= s.max
    ensures Replay(s, qs, j)
  {
    hide Authentic, TripleOf;
    var upto, before := qs[..j + 1], qs[..j];
    assert upto[j] == qs[j] && before[..i] == qs[..i] && forall m :: 0 <= m < j ==> upto[m] == before[m] == qs[m];
    assert N.Live(qs[i].now, upto[j].now, s.skew);
    StaysAmongNewest(s, before, i);
    var items, e := ItemsAfter(s, before), N.Entry(TripleOf(qs[i]), qs[i].now);
    var p :| 0 <= p < |items| && items[p] == e;
    var held := N.PurgedPosition(items, qs[j].now, s.skew, p);
  }

  /** One of the init's two time stamps is not ahead of the server's clock. */
  ghost predicate NotAhead(q: Request) {
    match InitOf(q)
    case Some(init) =>
      || init.timestamp * T.NANOS <= q.now
      || (T.DecodeTai64n(init.tai64n).Some? && T.DecodeTai64n(init.tai64n).value <= q.now)
    case None => false
  }

  /** The window that an init's stamps leave once one of them is not ahead of the clock is one skew long. */
  lemma OnTimeTogether(s: Setup, p: Request, q: Request)
    requires Authentic(s, p) && Answerable(s, p) && NotAhead(p)
    requires Authentic(s, q) && Answerable(s, q) && InitOf(q) == InitOf(p)
    ensures N.Live(p.now, q.now, s.skew)
  {
    hide InitOf, T.DecodeTai64n, ServerReply, WriteAcceptV3, AuthProofOk;
  }

  /**
   * An init one of whose time stamps is not ahead of the server's clock when it is answered is not
   * answered again, however late it comes back, until `max` other triples were stored: before its own
   * expires the cache holds it, and after that its stamp is too old.
   */
  lemma NeverAnsweredAgain(s: Setup, qs: seq<Request>, i: nat, j: nat)
    requires i < j < |qs| && Answered(s, qs, i) && NotAhead(qs[i]) && InitOf(qs[j]) == InitOf(qs[i])
    requires StoredSince(s, qs[..j], i) <= s.max
    requires forall m :: i < m < j && Authentic(s, qs[m]) ==> qs[m].now <= qs[j].now
    ensures !Answered(s, qs, j)
  {
    hide Authentic, Answerable, NotAhead, InitOf, StoredSince, Held;
    if Authentic(s, qs[j]) && Answerable(s, qs[j]) {
      OnTimeTogether(s, qs[i], qs[j]);
      RepeatRefused(s, qs, i, j);
    }
  }

  /**
   * Whatever is answered carries a valid proof, and with a positive skew both its stamps are at most that
   * far from the clock.
   */
  lemma AnsweredIsFresh(s: Setup, qs: seq<Request>, k: nat)
    requires k < |qs| && Answered(s, qs, k)
    ensures InitOf(qs[k]).Some? && T.DecodeTai64n(InitOf(qs[k]).value.tai64n).Some?
    ensures var init, now := InitOf(qs[k]).value, qs[k].now;
            var stamp := T.DecodeTai64n(init.tai64n).value;
            && AuthProofOk(s.suite, s.cfg, init)
            && (s.skew > 0 ==> -s.skew <= init.timestamp * T.NANOS - now <= s.skew && -s.skew <= stamp - now <= s.skew)
  {
    hide InitOf, T.DecodeTai64n, ServerReply, WriteAcceptV3, AuthProofOk, Held;
  }

  // ---- under a clock that does not go back: exactly when -----------------------------------------

  /** The authentic requests reach the cache in the order of their clock readings. */
  ghost predicate Monotone(s: Setup, qs: seq<Request>) {
    forall i, j :: 0 <= i <= j < |qs| && Authentic(s, qs[i]) && Authentic(s, qs[j]) ==> qs[i].now <= qs[j].now
  }

  /** What the nonce cache sees of a run: the authentic requests. */
  ghost function CallsOf(s: Setup, qs: seq<Request>): seq<N.Call> {
    if qs == [] then []
    else
      var calls, q := CallsOf(s, qs[..|qs| - 1]), qs[|qs| - 1];
      if Authentic(s, q) then calls + [N.Call(TripleOf(q), q.now)] else calls
  }

  lemma {:induction false} ItemsAreContents(s: Setup, qs: seq<Request>)
    requires s.start == []
    ensures ItemsAfter(s, qs) == N.Contents(s.max, s.skew, CallsOf(s, qs))
  {
    hide Authentic, TripleOf, N.After;
    if qs != [] {
      var n := |qs| - 1;
      ItemsAreContents(s, qs[..n]);
      N.RunSnoc(s.max, s.skew, CallsOf(s, qs[..n]), N.Call(TripleOf(qs[n]), qs[n].now), 0);
    }
  }

  /** The run up to an authentic request, as the cache sees it. */
  lemma HeldIsReported(s: Setup, qs: seq<Request>, q: Request)
    requires s.start == [] && Authentic(s, q)
    ensures Held(s, qs, q) <==> N.Reports(s.max, s.skew, CallsOf(s, qs), N.Call(TripleOf(q), q.now))
  {
    hide TripleOf, N.Purged, N.Holds;
    ItemsAreContents(s, qs);
  }

  lemma {:induction false} CallsPrefix(s: Setup, qs: seq<Request>, i: nat)
    requires i <= |qs|
    ensures CallsOf(s, qs[..i]) <= CallsOf(s, qs)
    decreases |qs|
  {
    if i < |qs| {
      CallsPrefix(s, qs[..|qs| - 1], i);
      assert qs[..|qs| - 1][..i] == qs[..i];
    } else {
      assert qs[..i] == qs;
    }
  }

  /** An authentic request is the call after those of the requests before it. */
  lemma CallOf(s: Setup, qs: seq<Request>, i: nat)
    requires i < |qs| && Authentic(s, qs[i])
    ensures var calls, m := CallsOf(s, qs), |CallsOf(s, qs[..i])|;
            m < |calls| && calls[..m] == CallsOf(s, qs[..i]) && calls[m] == N.Call(TripleOf(qs[i]), qs[i].now)
  {
    hide Authentic, TripleOf;
    CallsPrefix(s, qs, i);
    CallsPrefix(s, qs, i + 1);
    assert qs[..i + 1][..i] == qs[..i] && qs[..i + 1][i] == qs[i];
  }

  /** ... and every call comes from one. */
  lemma {:induction false} CallOrigin(s: Setup, qs: seq<Request>, m: nat) returns (i: nat)
    requires m < |CallsOf(s, qs)|
    ensures i < |qs| && Authentic(s, qs[i]) && |CallsOf(s, qs[..i])| == m
  {
    hide Authentic, TripleOf;
    var n := |qs| - 1;
    if m == |CallsOf(s, qs[..n])| {
      return n;
    }
    i := CallOrigin(s, qs[..n], m);
    assert qs[..n][..i] == qs[..i];
  }

  lemma {:induction false} CountsAgree(s: Setup, qs: seq<Request>, i: nat)
    requires s.start == [] && i <= |qs|
    ensures |CallsOf(s, qs[..i])| <= |CallsOf(s, qs)|
    ensures N.StoredSince(s.max, s.skew, CallsOf(s, qs), |CallsOf(s, qs[..i])|) == StoredSince(s, qs, i)
    decreases |qs|
  {
    hide Authentic, TripleOf, Held, N.Reports;
    CallsPrefix(s, qs, i);
    if i == |qs| {
      assert qs[..i] == qs;
    } else {
      var n := |qs| - 1;
      var before, q := qs[..n], qs[n];
      assert before[..i] == qs[..i];
      CountsAgree(s, before, i);
      if Authentic(s, q) {
        HeldIsReported(s, before, q);
        N.RunSnoc(s.max, s.skew, CallsOf(s, before), N.Call(TripleOf(q), q.now), |CallsOf(s, qs[..i])|);
      }
    }
  }

  lemma CallsInOrder(s: Setup, qs: seq<Request>, a: nat, b: nat)
    requires Monotone(s, qs) && a <= b < |CallsOf(s, qs)|
    ensures CallsOf(s, qs)[a].now <= CallsOf(s, qs)[b].now
  {
    hide Authentic, TripleOf, CallsOf;
    var i := CallOrigin(s, qs, a);
    var j := CallOrigin(s, qs, b);
    CallOf(s, qs, i);
    CallOf(s, qs, j);
    if j < i {
      CallsPrefix(s, qs[..i], j);
      assert qs[..i][..j] == qs[..j];
    }
  }

  lemma CallsMonotone(s: Setup, qs: seq<Request>)
    requires Monotone(s, qs)
    ensures N.Monotone(CallsOf(s, qs))
  {
    hide Monotone, CallsOf;
    forall a, b | 0 <= a <= b < |CallsOf(s, qs)|
      ensures CallsOf(s, qs)[a].now <= CallsOf(s, qs)[b].now
    {
      CallsInOrder(s, qs, a, b);
    }
  }

  /**
   * Request i stored the triple of request k, it has not expired by then, and fewer than `max` were stored
   * after it.
   */
  ghost predicate Remembers(s: Setup, qs: seq<Request>, i: nat, k: nat)
    requires k < |qs|
  {
    && i < k && Stores(s, qs, i) && TripleOf(qs[i]) == TripleOf(qs[k])
    && N.Live(qs[i].now, qs[k].now, s.skew) && StoredSince(s, qs[..k], i) <= s.max
  }

  /**
   * Since the server started: an authentic request is refused as a replay exactly when an earlier one
   * stored its triple, that has not expired, and fewer than `max` triples were stored since.
   */
  lemma ReplayIff(s: Setup, qs: seq<Request>, k: nat)
    requires s.start == [] && 0 < s.max && k < |qs| && Authentic(s, qs[k]) && Monotone(s, qs)
    ensures Replay(s, qs, k) <==> exists i: nat :: Remembers(s, qs, i, k)
  {
    hide Authentic, TripleOf, StoredSince, Held;
    if Replay(s, qs, k) {
      var i := RememberedRequest(s, qs, k);
    }
    if i: nat :| Remembers(s, qs, i, k) {
      var upto := qs[..k + 1];
      forall m | i < m < |upto| && Authentic(s, upto[m])
        ensures N.Live(upto[i].now, upto[m].now, s.skew)
      {
        assert upto[m] == qs[m] && qs[m].now <= qs[k].now;
      }
      RepeatRefused(s, qs, i, k);
    }
  }

  lemma RememberedRequest(s: Setup, qs: seq<Request>, k: nat) returns (i: nat)
    requires s.start == [] && 0 < s.max && k < |qs| && Replay(s, qs, k) && Monotone(s, qs)
    ensures Remembers(s, qs, i, k)
  {
    hide Authentic, TripleOf, Held, StoredSince, N.Reports, N.StoredSince, N.Live;
    var before, calls, next := qs[..k], CallsOf(s, qs[..k]), N.Call(TripleOf(qs[k]), qs[k].now);
    HeldIsReported(s, before, qs[k]);
    assert N.Monotone(calls + [next]) by {
      UpTo(s, qs, k);
      CallsMonotone(s, qs[..k + 1]);
    }
    N.ReportsByCall(s.max, s.skew, calls, next);
    var m: nat :| N.RemembersCall(s.max, s.skew, calls, next, m);
    i := CallOrigin(s, before, m);
    CallOf(s, before, i);
    CountsAgree(s, before, i);
    assert before[..i] == qs[..i];
    HeldIsReported(s, before[..i], before[i]);
  }

  lemma UpTo(s: Setup, qs: seq<Request>, k: nat)
    requires k < |qs| && Authentic(s, qs[k]) && Monotone(s, qs)
    ensures Monotone(s, qs[..k + 1])
    ensures CallsOf(s, qs[..k + 1]) == CallsOf(s, qs[..k]) + [N.Call(TripleOf(qs[k]), qs[k].now)]
  {
    hide Authentic, TripleOf;
    assert qs[..k + 1][..k] == qs[..k];
  }

  /**
   * For one repeat: an authentic request whose triple was last stored by request i is refused as a replay
   * if and only if that has not expired and fewer than `max` triples were stored since; otherwise it is
   * answered like a new one.
   */
  lemma RepeatIff(s: Setup, qs: seq<Request>, i: nat, j: nat)
    requires s.start == [] && 0 < s.max && Monotone(s, qs)
    requires i < j < |qs| && Stores(s, qs, i) && Authentic(s, qs[j]) && TripleOf(qs[j]) == TripleOf(qs[i])
    requires forall m :: i < m < j && TripleOf(qs[m]) == TripleOf(qs[i]) ==> !Stores(s, qs, m)
    ensures Replay(s, qs, j) <==> N.Live(qs[i].now, qs[j].now, s.skew) && StoredSince(s, qs[..j], i) <= s.max
    ensures Answered(s, qs, j) <==>
            Answerable(s, qs[j]) && !(N.Live(qs[i].now, qs[j].now, s.skew) && StoredSince(s, qs[..j], i) <= s.max)
  {
    hide Authentic, Answerable, TripleOf, Held, StoredSince;
    ReplayIff(s, qs, j);
    if m: nat :| Remembers(s, qs, m, j) {
      if m < i {
        assert qs[m].now <= qs[i].now;
        FewerSince(s, qs[..j], m, i);
      }
    }
    if N.Live(qs[i].now, qs[j].now, s.skew) && StoredSince(s, qs[..j], i) <= s.max {
      assert Remembers(s, qs, i, j);
    }
  }

  lemma {:induction false} FewerSince(s: Setup, qs: seq<Request>, i: nat, j: nat)
    requires i <= j <= |qs|
    ensures StoredSince(s, qs, j) <= StoredSince(s, qs, i)
    decreases |qs|
  {
    hide Stores;
    if j < |qs| {
      FewerSince(s, qs[..|qs| - 1], i, j);
    }
  }

  // ---- the two ways in which an init is answered twice -------------------------------------------

  /** A well-formed hello is authentic and can be answered exactly when its stamps are on time. */
  lemma GoodRequest(s: Setup, h: Hello, q: Request)
    requires KeyLaws(s.suite) && GoodConfig(s.cfg) && GoodHello(h)
    requires ClientStart(s.suite, s.cfg, h).Ok? && q.wire == ClientStart(s.suite, s.cfg, h).value.1
    requires q.sessionFree && |q.sk| == |q.nonce| == 32 && !IsZero(s.suite.shared(q.sk, s.suite.publicKey(h.sk)))
    ensures InitOf(q).Some? && TripleOf(q) == N.Key(h.sessionId, h.channelId, h.nonce)
    ensures InitOf(q).value.timestamp == h.timestamp && InitOf(q).value.tai64n == h.tai64n
    ensures Authentic(s, q) && Answerable(s, q) <==>
            TimeOk(q.now, h.timestamp, s.skew) && T.Timely(h.tai64n, q.now, s.skew)
  {
    hide ReadInitV3, WriteAcceptV3, ServerReply, ClientStart, AuthProofOk, Proof, DeriveKeys, Transcript.Layout;
    hide Transcript.Valid, SameCovered, T.DecodeTai64n, ValidInitV3, TimeOk, KeyLaws, GoodConfig, GoodHello;
    var c, cfg := s.suite, s.cfg;
    HelloArrives(c, cfg, h);
    var init := ClientStart(c, cfg, h).value.0;
    CoveredStamps(c, h, init);
    CurrentSuffices(c, h, init);
    ServerAnswers(c, cfg, init, q.sk, q.nonce, q.nowUnix, q.maxStreams);
  }

  lemma CurrentSuffices(c: Suite, h: Hello, init: ChannelInit)
    requires SameCovered(init, UnprovenInit(c, h))
    ensures Bits.And(init.capabilities, REQUIRED) == REQUIRED
  {
    RequiredIsCurrent();
    assert init.capabilities == init.(authProof := [], padding := []).capabilities;
  }

  /**
   * A hello that is answered, and presented again with nothing in between, is answered again exactly
   * when its triple has expired and its stamps are still on time, which takes stamps that were ahead of
   * the clock at first.
   */
  lemma PresentTwice(s: Setup, h: Hello, q1: Request, q2: Request)
    requires KeyLaws(s.suite) && GoodConfig(s.cfg) && GoodHello(h) && 0 < s.max
    requires ClientStart(s.suite, s.cfg, h).Ok? && q1.wire == q2.wire == ClientStart(s.suite, s.cfg, h).value.1
    requires q1.sessionFree && |q1.sk| == |q1.nonce| == 32 && !IsZero(s.suite.shared(q1.sk, s.suite.publicKey(h.sk)))
    requires q2.sessionFree && |q2.sk| == |q2.nonce| == 32 && !IsZero(s.suite.shared(q2.sk, s.suite.publicKey(h.sk)))
    requires Answered(s, [q1, q2], 0)
    ensures Answered(s, [q1, q2], 1) <==>
            && s.skew > 0 && q2.now > q1.now + s.skew
            && TimeOk(q2.now, h.timestamp, s.skew) && T.Timely(h.tai64n, q2.now, s.skew)
    ensures Answered(s, [q1, q2], 1) ==> h.timestamp * T.NANOS > q1.now && T.DecodeTai64n(h.tai64n).value > q1.now
  {
    hide Authentic, Answerable, InitOf, TripleOf, ClientStart, GoodHello, GoodConfig, KeyLaws, IsZero;
    hide N.After, N.Purged, N.Holds, T.DecodeTai64n;
    GoodRequest(s, h, q1);
    GoodRequest(s, h, q2);
    var qs := [q1, q2];
    assert qs[..0] == [] && qs[..1] == [] + [q1];
    NothingServed(s);
    ItemsSnoc(s, [], q1);
    N.HeldIff(s.start, s.max, TripleOf(q1), q1.now, s.skew, q2.now);
  }

  lemma CoveredStamps(c: Suite, h: Hello, init: ChannelInit)
    requires SameCovered(init, UnprovenInit(c, h))
    ensures init.timestamp == h.timestamp && init.tai64n == h.tai64n && init.clientEphPk == c.publicKey(h.sk)
    ensures NonceKey(init) == N.Key(h.sessionId, h.channelId, h.nonce)
  {
    assert init.sessionId == init.(authProof := [], padding := []).sessionId;
  }

  /** A hello made at second `sec`, for the channel with this number. */
  function HelloAt(sec: i64, channel: u32): Hello {
    Hello(Zeros(16), channel, Zeros(32), sec, [1], Zeros(32), T.EncodeTai64n(sec, 0), [])
  }

  const TOKEN: Config := Config([1], [], [])

  /** A request that carries such a hello, for a server that uses the plain suite. */
  function RequestAt(h: Hello, now: int): Request
    requires ClientStart(PlainSuite(), TOKEN, h).Ok?
  {
    Request(ClientStart(PlainSuite(), TOKEN, h).value.1, now, 0, true, Zeros(32), Zeros(32), 0)
  }

  lemma PlainRequest(sec: i64, channel: u32, now: int, skew: int, max: nat)
    requires 0 <= sec && channel != 0 && skew > 0 && now - skew <= sec * T.NANOS <= now + skew
    ensures ClientStart(PlainSuite(), TOKEN, HelloAt(sec, channel)).Ok?
    ensures var q := RequestAt(HelloAt(sec, channel), now);
            var s := Setup(PlainSuite(), TOKEN, skew, max, []);
            && Authentic(s, q) && Answerable(s, q) && TripleOf(q) == N.Key(Zeros(16), channel, Zeros(32))
            && (sec * T.NANOS <= now ==> NotAhead(q))
  {
    hide ClientStart, Authentic, Answerable, T.DecodeTai64n, T.EncodeTai64n, KeyLaws, AeadLaws, NeverOpens;
    LawsHaveAModel(1);
    var c, h := PlainSuite(), HelloAt(sec, channel);
    T.StampRoundTrip(sec, 0);
    HelloArrives(c, TOKEN, h);
    var q := RequestAt(h, now);
    assert c.shared(q.sk, c.publicKey(h.sk))[0] != 0;
    GoodRequest(Setup(c, TOKEN, skew, max, []), h, q);
  }

  /** Expired: made a minute ahead of the clock, answered, and answered again when its triple has just expired. */
  lemma AnsweredTwiceAhead()
    ensures ClientStart(PlainSuite(), TOKEN, HelloAt(60, 1)).Ok?
    ensures var s := Setup(PlainSuite(), TOKEN, 60 * T.NANOS, 1, []);
            var qs := [RequestAt(HelloAt(60, 1), 0), RequestAt(HelloAt(60, 1), 60 * T.NANOS + 1)];
            Answered(s, qs, 0) && Answered(s, qs, 1)
  {
    hide ClientStart, Authentic, Answerable, TripleOf, Answered, HelloAt, RequestAt, NotAhead;
    var skew := 60 * T.NANOS;
    var s := Setup(PlainSuite(), TOKEN, skew, 1, []);
    PlainRequest(60, 1, 0, skew, 1);
    PlainRequest(60, 1, skew + 1, skew, 1);
    RequestClock(HelloAt(60, 1), 0);
    RequestClock(HelloAt(60, 1), skew + 1);
    ExpiredBetween(s, RequestAt(HelloAt(60, 1), 0), RequestAt(HelloAt(60, 1), skew + 1));
  }

  lemma RequestClock(h: Hello, now: int)
    requires ClientStart(PlainSuite(), TOKEN, h).Ok?
    ensures RequestAt(h, now).now == now
  {
  }

  lemma ExpiredBetween(s: Setup, q1: Request, q2: Request)
    requires s.start == [] && 0 < s.max && 0 < s.skew && q2.now > q1.now + s.skew && TripleOf(q1) == TripleOf(q2)
    requires Authentic(s, q1) && Answerable(s, q1) && Authentic(s, q2) && Answerable(s, q2)
    ensures Answered(s, [q1, q2], 0) && Answered(s, [q1, q2], 1)
  {
    hide Authentic, Answerable, TripleOf, N.After, N.Purged, N.Holds;
    var qs := [q1, q2];
    assert qs[..0] == [] && qs[..1] == [] + [q1];
    NothingServed(s);
    ItemsSnoc(s, [], q1);
    NothingHeld(q1.now, s.skew, TripleOf(q1));
    N.HeldIff([], s.max, TripleOf(q1), q1.now, s.skew, q2.now);
  }

  lemma NothingHeld(now: int, ttl: int, key: N.Key)
    ensures !N.Holds(N.Purged([], now, ttl), key)
  {
  }

  /** Evicted: with room for one triple, a second init makes the cache forget the first, whose stamps are not ahead. */
  lemma AnsweredTwiceEvicted()
    ensures ClientStart(PlainSuite(), TOKEN, HelloAt(0, 1)).Ok? && ClientStart(PlainSuite(), TOKEN, HelloAt(0, 2)).Ok?
    ensures var s := Setup(PlainSuite(), TOKEN, 60 * T.NANOS, 1, []);
            var a, b := RequestAt(HelloAt(0, 1), 0), RequestAt(HelloAt(0, 2), 0);
            && NotAhead(a) && Answered(s, [a, b, a], 0) && Answered(s, [a, b, a], 1) && Answered(s, [a, b, a], 2)
  {
    hide ClientStart, Authentic, Answerable, TripleOf, NotAhead, Held;
    var skew := 60 * T.NANOS;
    var s := Setup(PlainSuite(), TOKEN, skew, 1, []);
    PlainRequest(0, 1, 0, skew, 1);
    PlainRequest(0, 2, 0, skew, 1);
    var a, b := RequestAt(HelloAt(0, 1), 0), RequestAt(HelloAt(0, 2), 0);
    var qs := [a, b, a];
    assert Monotone(s, qs);
    ReplayIff(s, qs, 0);
    ReplayIff(s, qs, 1);
    assert Stores(s, qs, 0) && Stores(s, qs, 1);
    CountTwo(s, qs);
    RepeatIff(s, qs, 0, 2);
  }

  lemma CountTwo(s: Setup, qs: seq<Request>)
    requires |qs| == 3 && Stores(s, qs, 0) && Stores(s, qs, 1)
    ensures StoredSince(s, qs[..2], 0) == 2
  {
    hide Authentic, Held;
    var two, one := qs[..2], qs[..1];
    assert two[..1] == one && two[1] == qs[1] && one[0] == qs[0] && one[..0] == qs[..0];
    assert StoredSince(s, one[..0], 0) == 0;
    assert StoredSince(s, one, 0) == 1;
  }
}
