/** One session's data streams, in both directions and across rekeys: which key and nonce each record is sealed with. */
module KeyUse {
  import opened Bytes
  import opened Crypto
  import opened Records
  import opened Session
  import W = RecordWriter

  /** The two lanes are different streams, or the two directions of one. */
  predicate Apart(l: Lane, m: Lane) {
    l.c2s != m.c2s || l.streamId != m.streamId
  }

  /** The key-derivation info of record `n` of a lane. */
  function InfoOf(l: Lane, n: nat): Bytes
    requires n >= 1
  {
    KeyInfo(l.cipher, l.c2s, l.streamId, Generation(l, n))
  }

  /** Record `i` of one lane and record `j` of another are sealed with the same derivation info and the same nonce. */
  predicate SamePair(l: Lane, i: nat, m: Lane, j: nat)
    requires i >= 1 && j >= 1
  {
    InfoOf(l, i) == InfoOf(m, j) && Nonce(l, i) == Nonce(m, j)
  }

  /** Equal derivation info means the same direction of the same stream, the same cipher and the same generation. */
  lemma KeyInfoInjective(l: Lane, i: u64, m: Lane, j: u64)
    requires i >= 1 && j >= 1 && InfoOf(l, i) == InfoOf(m, j)
    ensures !Apart(l, m) && l.cipher == m.cipher && Generation(l, i) == Generation(m, j)
  {
    hide Be;
    var x, y := InfoOf(l, i), InfoOf(m, j);
    assert x[11] == (if l.c2s then 'c' else 's') as int;
    assert y[11] == (if m.c2s then 'c' else 's') as int;
    assert x[18] == l.cipher && y[18] == m.cipher;
    assert x[19..23] == Be(l.streamId, 4) && y[19..23] == Be(m.streamId, 4);
    assert x[23..] == Be(Generation(l, i), 8) && y[23..] == Be(Generation(m, j), 8);
    GenerationFits(l, i);
    GenerationFits(m, j);
    Widths();
    hide Generation;
    BeInjective(l.streamId, m.streamId, 4);
    BeInjective(Generation(l, i), Generation(m, j), 8);
  }

  // ---- rekeying ----------------------------------------------------------------------------------

  /** How many records share a key: the lane's interval, or 2^32 when that is zero. */
  function Interval(l: Lane): (n: nat)
    ensures n >= 1
  {
    if l.rekeyInterval == 0 then 0x1_0000_0000 else l.rekeyInterval
  }

  /** Records n falls into the q-th run of an interval's length. */
  predicate InRun(l: Lane, q: nat, n: nat) {
    q * Interval(l) < n <= (q + 1) * Interval(l)
  }

  lemma GenerationFits(l: Lane, n: u64)
    requires n >= 1
    ensures Generation(l, n) <= n
  {
    GenerationIsRun(l, n, Generation(l, n));
    MulMonotone(1, Interval(l), Generation(l, n));
  }

  /** The generation of a record is the run it falls into. */
  lemma GenerationIsRun(l: Lane, n: nat, q: nat)
    requires n >= 1
    ensures Generation(l, n) == q <==> InRun(l, q, n)
  {
    var g, k := Generation(l, n), Interval(l);
    DivideRun(n - 1, k, g);
    if q < g {
      MulMonotone(q + 1, g, k);
    } else if q > g {
      MulMonotone(g + 1, q, k);
    }
  }

  lemma DivideRun(x: nat, k: nat, g: nat)
    requires k >= 1 && g == x / k
    ensures g * k <= x < (g + 1) * k
  {
    assert x == k * g + x % k;
    assert (g + 1) * k == k * g + k;
  }

  /** Two records of a lane are sealed under the same derivation info exactly when they fall into the same run. */
  lemma RekeyIff(l: Lane, i: u64, j: u64)
    requires i >= 1 && j >= 1
    ensures InfoOf(l, i) == InfoOf(l, j) <==> exists q: nat :: InRun(l, q, i) && InRun(l, q, j)
  {
    GenerationIsRun(l, i, Generation(l, i));
    GenerationIsRun(l, j, Generation(l, j));
    hide Generation, InRun;
    if InfoOf(l, i) == InfoOf(l, j) {
      KeyInfoInjective(l, i, l, j);
      assert InRun(l, Generation(l, i), i) && InRun(l, Generation(l, i), j);
    }
    if q: nat :| InRun(l, q, i) && InRun(l, q, j) {
      GenerationIsRun(l, i, q);
      GenerationIsRun(l, j, q);
    }
  }

  /** So records an interval or more apart never share it. */
  lemma RekeyedInTime(l: Lane, i: u64, j: u64)
    requires 1 <= i && i + Interval(l) <= j
    ensures InfoOf(l, i) != InfoOf(l, j)
  {
    RekeyIff(l, i, j);
    hide Generation;
    forall q: nat | InRun(l, q, i)
      ensures !InRun(l, q, j)
    {
      assert (q + 1) * Interval(l) == q * Interval(l) + Interval(l);
    }
  }

  /** A stream key depends on the session's seed and on the derivation info, unless HKDF collides. */
  lemma StreamKeyBinds(c: Suite, l: Lane, i: nat, m: Lane, j: nat)
    requires i >= 1 && j >= 1 && KeyLen(l.cipher) == KeyLen(m.cipher)
    requires StreamKey(c, l, Generation(l, i)) == StreamKey(c, m, Generation(m, j))
    ensures || (l.keys.seed == m.keys.seed && InfoOf(l, i) == InfoOf(m, j))
            || ((l.keys.seed, InfoOf(l, i)) != (m.keys.seed, InfoOf(m, j)) &&
                c.expand(l.keys.seed, InfoOf(l, i), KeyLen(l.cipher)) ==
                  c.expand(m.keys.seed, InfoOf(m, j), KeyLen(m.cipher)))
  {
    hide KeyInfo, Generation, KeyLen;
  }

  /** The two directions' nonces differ when their prefixes do, and within a direction they differ with the number. */
  lemma NonceInjective(l: Lane, m: Lane, i: u64, j: u64)
    requires l.keys == m.keys && Nonce(l, i) == Nonce(m, j)
    ensures i == j && (l.c2s == m.c2s || l.keys.c2sPrefix == l.keys.s2cPrefix)
  {
    assert Nonce(l, i)[4..] == Be(i, 8) && Nonce(m, j)[4..] == Be(j, 8);
    assert Nonce(l, i)[..4] == if l.c2s then l.keys.c2sPrefix else l.keys.s2cPrefix;
    assert Nonce(m, j)[..4] == if m.c2s then m.keys.c2sPrefix else m.keys.s2cPrefix;
    Widths();
    BeInjective(i, j, 8);
  }

  /** Two writers of a session: one and the same, or of lanes that are apart. */
  ghost predicate OfOneSession(v: W.Writer, w: W.Writer) {
    v.lane.keys == w.lane.keys && (v == w || Apart(v.lane, w.lane))
  }

  /**
   * Any two records that the writers of a session have handed to their inner streams: each is sealed
   * under its own number, and they differ in derivation info or in nonce.
   */
  lemma NoPairReused(v: W.Writer, i: nat, w: W.Writer, j: nat)
    requires v.Valid() && w.Valid() && OfOneSession(v, w)
    requires i < |v.wire| && j < |w.wire| && (v, i) != (w, j)
    ensures i < |v.records| && v.wire[i] == Sealed(v.suite, v.lane, i + 1, v.records[i])
    ensures j < |w.records| && w.wire[j] == Sealed(w.suite, w.lane, j + 1, w.records[j])
    ensures !SamePair(v.lane, i + 1, w.lane, j + 1)
  {
    hide Be, Sealed, InfoOf, Nonce;
    if SamePair(v.lane, i + 1, w.lane, j + 1) {
      KeyInfoInjective(v.lane, i + 1, w.lane, j + 1);
      NonceInjective(v.lane, w.lane, i + 1, j + 1);
    }
  }

  /** Something happens to one of a session's streams. */
  datatype SessionEvent = On(stream: nat, event: Event)

  /**
   * Any number of streams of one session, driven through any writes, timer firings, option changes and
   * closes in any interleaving: no two records share derivation info and nonce.
   */
  method RunSession(suite: Suite, lanes: seq<Lane>, randomness: nat -> Bytes, es: seq<SessionEvent>)
    returns (ws: seq<W.Writer>)
    requires forall a :: 0 <= a < |lanes| ==> SupportedCipher(lanes[a].cipher) && lanes[a].keys == lanes[0].keys
    requires forall a, b :: 0 <= a < b < |lanes| ==> Apart(lanes[a], lanes[b])
    requires forall k :: 0 <= k < |es| ==> es[k].stream < |lanes|
    ensures |ws| == |lanes|
    ensures forall a :: 0 <= a < |ws| ==> ws[a].Valid() && ws[a].lane == lanes[a] && ws[a].suite == suite
    ensures forall a, b, i, j ::
              0 <= a < |ws| && 0 <= b < |ws| && 0 <= i < |ws[a].wire| && 0 <= j < |ws[b].wire| && (a, i) != (b, j) ==>
              !SamePair(lanes[a], i + 1, lanes[b], j + 1)
  {
    hide W.Writer.Valid, Apart, SamePair;
    ws := [];
    for a := 0 to |lanes|
      invariant |ws| == a && forall b :: 0 <= b < a ==> fresh(ws[b]) && fresh(ws[b].payloadBuf)
      invariant forall b :: 0 <= b < a ==> ws[b].Valid() && ws[b].lane == lanes[b] && ws[b].suite == suite
      invariant forall b, c :: 0 <= b < c < a ==> ws[b] != ws[c]
    {
      var w := new W.Writer(suite, lanes[a], true, false, randomness);
      ws := ws + [w];
    }
    for k := 0 to |es|
      invariant forall b :: 0 <= b < |ws| ==> ws[b].Valid()
    {
      Apply(ws[es[k].stream], es[k].event);
    }
    forall a, b, i, j | 0 <= a < |ws| && 0 <= b < |ws| && 0 <= i < |ws[a].wire| && 0 <= j < |ws[b].wire| &&
      (a, i) != (b, j)
      ensures !SamePair(lanes[a], i + 1, lanes[b], j + 1)
    {
      if a != b {
        ApartEitherWay(lanes, a, b);
      }
      NoPairReused(ws[a], i, ws[b], j);
    }
  }

  lemma ApartEitherWay(lanes: seq<Lane>, a: nat, b: nat)
    requires a < |lanes| && b < |lanes| && a != b
    requires forall c, d :: 0 <= c < d < |lanes| ==> Apart(lanes[c], lanes[d])
    ensures Apart(lanes[a], lanes[b])
  {
    if b < a {
      assert Apart(lanes[b], lanes[a]);
    }
  }
}
