/**
 * The v3 handshake: proofs and key derivation of internal/wire/protocol_v3.go, the client's steps in
 * internal/app/client.go and the server's in internal/app/server.go.
 */
module Handshake {
  import opened Bytes
  import opened Bits
  import opened Outcomes
  import opened Crypto
  import opened Records
  import opened Tlv
  import opened Channel
  import opened ChannelFrames
  import opened Transcript
  import N = NonceCache
  import T = Tai64nCache

  /** Bits 0 to 6, channel statistics (9) and forward secrecy (12). */
  const CURRENT_CAPABILITIES: u64 := 0x127F
  /** TCP, ping, TCP status, status codes and forward secrecy. */
  const REQUIRED: u64 := 0x1055

  // ---- proofs ----------------------------------------------------------------------------------

  function AuthKey(c: Suite, token: Bytes, name: Bytes): Bytes {
    c.expand(c.extract(Ascii("x-tunnel-v3-auth"), token), name, 32)
  }

  /** ComputeV3AuthProof on an init transcript, ComputeV3ServerProof on a full one. */
  function Proof(c: Suite, token: Bytes, t: Transcript): Bytes
    requires t.Valid()
  {
    c.hmac(AuthKey(c, token, t.name), c.hash(t.Layout()))
  }

  ghost predicate HashCollision(c: Suite, x: Bytes, y: Bytes) {
    x != y && c.hash(x) == c.hash(y)
  }

  ghost predicate HmacCollision(c: Suite, k: Bytes, x: Bytes, l: Bytes, y: Bytes) {
    (k, x) != (l, y) && c.hmac(k, x) == c.hmac(l, y)
  }

  ghost predicate ExtractCollision(c: Suite, salt: Bytes, x: Bytes, y: Bytes) {
    x != y && c.extract(salt, x) == c.extract(salt, y)
  }

  ghost predicate ExpandCollision(c: Suite, k: Bytes, x: Bytes, l: Bytes, y: Bytes, n: nat) {
    (k, x) != (l, y) && c.expand(k, x, n) == c.expand(l, y, n)
  }

  /** HKDF gives two tokens the same proof key for a server name: one of its two steps collides on them. */
  ghost predicate AuthKeyCollision(c: Suite, a: Bytes, b: Bytes, name: Bytes) {
    var salt := Ascii("x-tunnel-v3-auth");
    ExtractCollision(c, salt, a, b) || ExpandCollision(c, c.extract(salt, a), name, c.extract(salt, b), name, 32)
  }

  /** The proof key depends on the token. */
  lemma AuthKeyBinds(c: Suite, a: Bytes, b: Bytes, name: Bytes)
    requires AuthKey(c, a, name) == AuthKey(c, b, name)
    ensures a == b || AuthKeyCollision(c, a, b, name)
  {
    hide Ascii;
  }

  /**
   * Two equal proofs are over the same token and the same transcript, field by field and of the same
   * mode, unless the hash, the MAC or the key derivation collides on the very values used.
   */
  lemma ProofBinds(c: Suite, a: Bytes, s: Transcript, b: Bytes, t: Transcript)
    requires s.Valid() && t.Valid() && Proof(c, a, s) == Proof(c, b, t)
    ensures || (a == b && s.name == t.name && s.path == t.path && SameCovered(s.init, t.init) && s.server == t.server)
            || HmacCollision(c, AuthKey(c, a, s.name), c.hash(s.Layout()), AuthKey(c, b, t.name), c.hash(t.Layout()))
            || HashCollision(c, s.Layout(), t.Layout())
            || AuthKeyCollision(c, a, b, s.name)
  {
    hide AuthKey, AuthKeyCollision, Transcript.Layout, SameCovered;
    if s.Layout() == t.Layout() {
      LayoutInjective(s, t);
      if AuthKey(c, a, s.name) == AuthKey(c, b, t.name) {
        AuthKeyBinds(c, a, b, s.name);
      }
    }
  }

  // ---- keys ------------------------------------------------------------------------------------

  predicate IsZero(b: Bytes) {
    forall i :: 0 <= i < |b| ==> b[i] == 0
  }

  /** The code's loop over the bytes finds exactly the string of zeros. */
  method AllZero(b: Bytes) returns (zero: bool)
    ensures zero <==> IsZero(b)
    ensures zero <==> b == Zeros(|b|)
  {
    for i := 0 to |b|
      invariant forall j :: 0 <= j < i ==> b[j] == 0
    {
      if b[i] != 0 {
        return false;
      }
    }
    return true;
  }

  /** ComputeV3SharedSecret */
  function SharedSecret(c: Suite, sk: Bytes, peerPk: Bytes): Result<Bytes, string> {
    if |sk| != 32 || |peerPk| != 32 then Err("keys must be 32 bytes")
    else if IsZero(c.shared(sk, peerPk)) then Err("shared secret is all zeros")
    else Ok(c.shared(sk, peerPk))
  }

  /** A shared secret is accepted exactly when both keys have their size and it is not all zeros. */
  lemma SharedSecretIff(c: Suite, sk: Bytes, peerPk: Bytes)
    requires KeyLaws(c)
    ensures SharedSecret(c, sk, peerPk).Ok? <==> |sk| == 32 && |peerPk| == 32 && c.shared(sk, peerPk) != Zeros(32)
    ensures SharedSecret(c, sk, peerPk).Ok? ==> SharedSecret(c, sk, peerPk).value == c.shared(sk, peerPk)
  {
  }

  /** DeriveV3SessionSeed */
  function DeriveKeys(c: Suite, token: Bytes, transcriptHash: Bytes, shared: Bytes): Result<RawKeys, string> {
    if token == [] || |transcriptHash| != 32 || |shared| != 32 || IsZero(shared) then Err("invalid key material")
    else
      var prk := c.extract(Ascii("xtunnel-v3-kdf"), shared + token);
      var seed := c.expand(c.expand(prk, transcriptHash, 32), Ascii("xtunnel-v3 fs mix"), 32);
      Ok(SessionKeys(seed, c.expand(seed, Ascii("xtunnel-v3 c2s nonce"), 4),
        c.expand(seed, Ascii("xtunnel-v3 s2c nonce"), 4)))
  }

  /** HKDF gives the same seed to two different sets of key material: one of its three steps collides on them. */
  ghost predicate SeedCollision(c: Suite, a: Bytes, t: Bytes, x: Bytes, b: Bytes, u: Bytes, y: Bytes) {
    var salt, mix := Ascii("xtunnel-v3-kdf"), Ascii("xtunnel-v3 fs mix");
    var k, l := c.extract(salt, x + a), c.extract(salt, y + b);
    || ExtractCollision(c, salt, x + a, y + b)
    || ExpandCollision(c, k, t, l, u, 32)
    || ExpandCollision(c, c.expand(k, t, 32), mix, c.expand(l, u, 32), mix, 32)
  }

  /** The session seed depends on the token, on the transcript and on the shared secret. */
  lemma DeriveBinds(c: Suite, a: Bytes, t: Bytes, x: Bytes, b: Bytes, u: Bytes, y: Bytes)
    requires DeriveKeys(c, a, t, x).Ok? && DeriveKeys(c, b, u, y).Ok?
    requires DeriveKeys(c, a, t, x).value.seed == DeriveKeys(c, b, u, y).value.seed
    ensures (a == b && t == u && x == y) || SeedCollision(c, a, t, x, b, u, y)
  {
    hide Ascii;
    assert (x + a)[..32] == x && (y + b)[..32] == y && (x + a)[32..] == a && (y + b)[32..] == b;
  }

  /** The nonce prefixes come from the seed, each under its own direction's label. */
  lemma PrefixesFromSeed(c: Suite, token: Bytes, transcriptHash: Bytes, shared: Bytes)
    requires DeriveKeys(c, token, transcriptHash, shared).Ok?
    ensures var keys := DeriveKeys(c, token, transcriptHash, shared).value;
            && keys.c2sPrefix == c.expand(keys.seed, Ascii("xtunnel-v3 c2s nonce"), 4)
            && keys.s2cPrefix == c.expand(keys.seed, Ascii("xtunnel-v3 s2c nonce"), 4)
  {
  }

  ghost predicate IsFirstSupported(pref: Bytes, cipher: u8) {
    exists i ::
      && 0 <= i < |pref| && pref[i] == cipher && SupportedCipher(cipher)
      && forall j :: 0 <= j < i ==> !SupportedCipher(pref[j])
  }

  /** The first supported cipher of a preference list. */
  function FirstSupported(pref: Bytes): (chosen: Option<u8>)
    ensures chosen.None? ==> forall i :: 0 <= i < |pref| ==> !SupportedCipher(pref[i])
    ensures chosen.Some? ==> IsFirstSupported(pref, chosen.value)
  {
    if pref == [] then None
    else if SupportedCipher(pref[0]) then assert pref[0] == pref[0]; Some(pref[0])
    else
      var rest := FirstSupported(pref[1..]);
      FirstSupportedOn(pref, rest);
      rest
  }

  lemma FirstSupportedOn(pref: Bytes, rest: Option<u8>)
    requires pref != [] && !SupportedCipher(pref[0])
    requires if rest.Some? then IsFirstSupported(pref[1..], rest.value)
             else forall i :: 0 <= i < |pref[1..]| ==> !SupportedCipher(pref[1..][i])
    ensures if rest.Some? then IsFirstSupported(pref, rest.value)
            else forall i :: 0 <= i < |pref| ==> !SupportedCipher(pref[i])
  {
    assert forall i :: 1 <= i < |pref| ==> pref[1..][i - 1] == pref[i];
    if rest.Some? {
      var i :| 0 <= i < |pref[1..]| && pref[1..][i] == rest.value &&
             forall j :: 0 <= j < i ==> !SupportedCipher(pref[1..][j]);
      assert pref[i + 1] == rest.value;
    }
  }

  /** NegotiateCipherV3 */
  method NegotiateCipher(pref: Bytes) returns (chosen: Option<u8>)
    ensures chosen == FirstSupported(pref)
  {
    for i := 0 to |pref|
      invariant FirstSupported(pref) == FirstSupported(pref[i..])
    {
      assert pref[i..][1..] == pref[i + 1..];
      if SupportedCipher(pref[i]) {
        return Some(pref[i]);
      }
    }
    return None;
  }

  // ---- the client ------------------------------------------------------------------------------

  /** What the two sides have been told. */
  datatype Config = Config(token: Bytes, name: Bytes, path: Bytes)

  /** What one side holds when the handshake is over. */
  datatype Done = Done(capabilities: u64, keys: RawKeys, cipher: u8)

  /** The client's own values for one handshake. */
  datatype Hello = Hello(sessionId: Bytes, channelId: u32, nonce: Bytes, timestamp: i64, pref: Bytes, sk: Bytes,
    tai64n: Bytes, pad: Bytes)

  function UnprovenInit(c: Suite, h: Hello): ChannelInit {
    ChannelInit(h.sessionId, h.channelId, h.nonce, h.timestamp, CURRENT_CAPABILITIES, [], h.pref, c.publicKey(h.sk),
      h.tai64n, [])
  }

  /** Lines 522-554: build, prove, pad and write the init. */
  function ClientStart(c: Suite, cfg: Config, h: Hello): Result<(ChannelInit, Bytes), string> {
    var bare := UnprovenInit(c, h);
    var t := Transcript(cfg.name, cfg.path, bare, None);
    if !t.Valid() then Err("invalid transcript field")
    else
      var proven := bare.(authProof := Proof(c, cfg.token, t));
      var _ :- EncodeInitV3(proven);
      var init := proven.(padding := h.pad);
      var wire :- WriteInitV3(init);
      Ok((init, wire))
  }

  function FullTranscript(cfg: Config, init: ChannelInit, part: ServerPart): Transcript {
    Transcript(cfg.name, cfg.path, init, Some(part))
  }

  /** VerifyV3ServerProof */
  predicate ServerProofOk(c: Suite, cfg: Config, init: ChannelInit, accept: ChannelAccept) {
    var t := FullTranscript(cfg, init, ServerPart(accept.serverEphPk, accept.serverNonce, accept.cipher));
    t.Valid() && accept.serverProof == Proof(c, cfg.token, t)
  }

  /** Lines 557-601: read the answer, check it and derive the keys. */
  function ClientFinish(c: Suite, cfg: Config, h: Hello, init: ChannelInit, answer: Bytes): Result<Done, string> {
    var (a, _) :- ReadAnswerV3(answer, MAX_FRAME);
    if a.Refused? then Err("rejected")
    else
      var accept := a.accept;
      if And(accept.capabilities, REQUIRED) != REQUIRED then Err("capabilities missing")
      else if |accept.serverEphPk| != 32 || |accept.serverProof| != 32 then Err("malformed proof or key")
      else
        var shared :- SharedSecret(c, h.sk, accept.serverEphPk);
        if !ServerProofOk(c, cfg, init, accept) then Err("server proof does not verify")
        else
          var t := FullTranscript(cfg, init, ServerPart(accept.serverEphPk, accept.serverNonce, accept.cipher));
          var keys :- DeriveKeys(c, cfg.token, c.hash(t.Layout()), shared);
          Ok(Done(accept.capabilities, keys, accept.cipher))
  }

  // ---- the server ------------------------------------------------------------------------------

  /** validateChannelInitTime, with `now` and `skew` in nanoseconds. */
  predicate TimeOk(now: int, timestamp: i64, skew: int) {
    skew > 0 ==> now - skew <= timestamp * T.NANOS <= now + skew
  }

  /** VerifyV3AuthProof */
  predicate AuthProofOk(c: Suite, cfg: Config, init: ChannelInit) {
    var t := Transcript(cfg.name, cfg.path, init, None);
    t.Valid() && init.authProof == Proof(c, cfg.token, t)
  }

  function NonceKey(init: ChannelInit): N.Key {
    N.Key(init.sessionId, init.channelId, init.clientNonce)
  }

  /** Lines 814-930: capabilities, cipher, key exchange, proof and keys. */
  function ServerReply(c: Suite, cfg: Config, init: ChannelInit, sk: Bytes, nonce: Bytes, nowUnix: i64, maxStreams: u32)
    : Result<(Done, ChannelAccept), string>
  {
    if And(init.capabilities, REQUIRED) != REQUIRED then Err("capabilities missing")
    else
      AndFits(init.capabilities, CURRENT_CAPABILITIES);
      var caps: u64 := And(init.capabilities, CURRENT_CAPABILITIES);
      match FirstSupported(init.cipherPref)
      case None => Err("no supported cipher")
      case Some(cipher) =>
        var shared :- SharedSecret(c, sk, init.clientEphPk);
        var part := ServerPart(c.publicKey(sk), nonce, cipher);
        var t := FullTranscript(cfg, init, part);
        if !t.Valid() then Err("invalid transcript field")
        else
          var keys :- DeriveKeys(c, cfg.token, c.hash(t.Layout()), shared);
          Ok((Done(caps, keys, cipher),
              ChannelAccept(caps, nonce, nowUnix, MAX_FRAME, maxStreams, [], cipher, part.ephPk,
                Proof(c, cfg.token, t))))
  }

  lemma {:induction false} AndFits(x: nat, y: nat)
    ensures And(x, y) <= y
  {
    if x != 0 && y != 0 {
      AndFits(x / 2, y / 2);
    }
  }

  /** What the server checks before it touches its caches (lines 753-795). */
  predicate Authentic(c: Suite, cfg: Config, init: ChannelInit, now: int, skew: int) {
    T.DecodeTai64n(init.tai64n).Some? && TimeOk(now, init.timestamp, skew) && AuthProofOk(c, cfg, init)
  }

  /** Everything the server checks about an init before it answers. */
  ghost predicate Admits(c: Suite, cfg: Config, init: ChannelInit, now: int, skew: int, remembered: seq<N.Entry>) {
    && Authentic(c, cfg, init, now, skew)
    && !N.Holds(N.Purged(remembered, now, skew), NonceKey(init))
    && T.Timely(init.tai64n, now, skew)
  }

  lemma InitAsRead(wire: Bytes)
    ensures var read := ReadInitV3(wire, MAX_FRAME);
            read.Ok? ==> |read.value.0.sessionId| == 16 && |read.value.0.clientEphPk| == 32
  {
    var frame := ReadFrame(3, wire, MAX_FRAME);
    hide ReadFrame, DecodeInitV3;
    if frame.Ok? {
      DecodedInitIsValid(frame.value.0.body);
    }
  }

  /** The refusal of an init whose nonce is in the cache (lines 796-804). */
  const REPLAY := "replay"

  /** The server's steps of handlePreAuthTransportSession on what it reads from the stream. */
  method Serve(c: Suite, cfg: Config, wire: Bytes, now: int, nowUnix: i64, skew: int, nonces: N.Cache, stamps: T.Cache,
               sessionFree: bool, sk: Bytes, nonce: Bytes, maxStreams: u32)
    returns (r: Result<(Done, Bytes), string>)
    requires nonces.Valid() && stamps.Valid()
    modifies nonces, stamps, stamps.evict
    ensures nonces.Valid() && stamps.Valid() && (forall e <- stamps.evict :: e in old(stamps.evict) || fresh(e))
    // an init without a valid proof leaves both caches alone; one with it is remembered even when it is then refused
    ensures var read := ReadInitV3(wire, MAX_FRAME);
            if read.Err? || !Authentic(c, cfg, read.value.0, now, skew)
            then nonces.Items() == old(nonces.Items()) && stamps.Contents() == old(stamps.Contents())
            else
              && nonces.Items() == N.After(old(nonces.Items()), nonces.max, NonceKey(read.value.0), now, skew)
              && stamps.Contents() ==
                 if Admits(c, cfg, read.value.0, now, skew, old(nonces.Items()))
                 then T.Touched(old(stamps.Contents()), stamps.capacity,
                   T.Entry(read.value.0.sessionId, read.value.0.tai64n))
                 else old(stamps.Contents())
    ensures var read := ReadInitV3(wire, MAX_FRAME);
            r == Err(REPLAY) <==>
            && read.Ok? && Authentic(c, cfg, read.value.0, now, skew)
            && N.Holds(N.Purged(old(nonces.Items()), now, skew), NonceKey(read.value.0))
    ensures var read := ReadInitV3(wire, MAX_FRAME);
            if read.Err? || !Admits(c, cfg, read.value.0, now, skew, old(nonces.Items())) then r.Err?
            else
              match ServerReply(c, cfg, read.value.0, sk, nonce, nowUnix, maxStreams)
              case Err(_) => r.Err?
              case Ok((done, accept)) =>
                && (r.Ok? <==> sessionFree && WriteAcceptV3(accept).Ok?)
                && (r.Ok? ==> r.value == (done, WriteAcceptV3(accept).value))
  {
    hide N.After, N.Purged, N.Holds, T.Touched, T.Timely, T.DecodeTai64n, ReadInitV3, ServerReply, WriteAcceptV3,
         AuthProofOk;
    hide TimeOk, N.Cache.Valid, N.Cache.Matched, T.Cache.Valid;
    var read := ReadInitV3(wire, MAX_FRAME);
    if read.Err? {
      return Err("cannot read init");
    }
    var init := read.value.0;
    InitAsRead(wire);
    if T.DecodeTai64n(init.tai64n).None? {
      return Err("malformed timestamp");
    }
    if !TimeOk(now, init.timestamp, skew) {
      return Err("timestamp skew");
    }
    if |init.clientEphPk| != 32 || !AuthProofOk(c, cfg, init) {
      return Err("authentication failed");
    }
    var seen := nonces.SeenOrStore(NonceKey(init), now, skew);
    if seen {
      return Err(REPLAY);
    }
    var timely := stamps.CheckAndStore(init.sessionId, init.tai64n, now, skew);
    if !timely {
      return Err("stale timestamp");
    }
    var reply := ServerReply(c, cfg, init, sk, nonce, nowUnix, maxStreams);
    if reply.Err? || !sessionFree {
      return Err("refused");
    }
    var answer := WriteAcceptV3(reply.value.1);
    if answer.Err? {
      return Err("cannot write accept");
    }
    return Ok((reply.value.0, answer.value));
  }

  // ---- agreement -------------------------------------------------------------------------------

  lemma {:induction false} BodyLength(rs: seq<Tlv>, n: nat)
    requires forall i :: 0 <= i < |rs| ==> |rs[i].value| <= n
    ensures |BodyOf(rs)| <= |rs| * (4 + n)
  {
    if rs != [] {
      BodyLength(rs[1..], n);
      assert |rs| * (4 + n) == (|rs| - 1) * (4 + n) + (4 + n);
    }
  }

  lemma WritableInit(i: ChannelInit)
    requires ValidInitV3(i) && |i.padding| <= 1400
    ensures EncodeInitV3(i).Ok? && WriteInitV3(i).Ok?
  {
    hide U32, U64, U64OfI64, BodyOf;
    var rs := InitRecordsV3(i);
    assert forall k :: 0 <= k < |rs| ==> |rs[k].value| <= 1400;
    BodyLength(rs, 1400);
  }

  lemma WritableAccept(a: ChannelAccept)
    requires ValidAcceptV3(a) && a.message == []
    ensures WriteAcceptV3(a).Ok?
  {
    hide U32, U64, U64OfI64, BodyOf;
    var rs := AcceptRecordsV3(a);
    assert forall k :: 0 <= k < |rs| ==> |rs[k].value| <= 32;
    BodyLength(rs, 32);
  }

  lemma {:induction false} AndStep(x: nat, y: nat)
    ensures And(x, y) == (if x % 2 == 1 && y % 2 == 1 then 1 else 0) + if x < 2 || y < 2 then 0
            else 2 * And(x / 2, y / 2)
  {
    assert x < 2 ==> x / 2 == 0;
    assert y < 2 ==> y / 2 == 0;
    if x % 2 == 1 && y % 2 == 1 {
      assert (x % 2) * (y % 2) == 1;
    } else if x % 2 == 0 {
      assert (x % 2) * (y % 2) == 0 * (y % 2);
    } else {
      assert (x % 2) * (y % 2) == (x % 2) * 0;
    }
  }

  lemma RequiredIsCurrent()
    ensures And(CURRENT_CAPABILITIES, REQUIRED) == REQUIRED
  {
    hide And;
    // one bit at a time, from the top
    AndStep(1, 1); AndStep(2, 2); AndStep(4, 4); AndStep(9, 8); AndStep(18, 16); AndStep(36, 32); AndStep(73, 65);
    AndStep(147, 130); AndStep(295, 261); AndStep(591, 522); AndStep(1183, 1045); AndStep(2367, 2090);
    AndStep(CURRENT_CAPABILITIES, REQUIRED);
  }

  /** The values a client may put into its hello. */
  predicate GoodHello(h: Hello) {
    && |h.sessionId| == 16 && h.channelId != 0 && |h.nonce| == 32 && SupportedPref(h.pref)
    && |h.sk| == 32 && |h.tai64n| == 12 && |h.pad| <= 1400
  }

  predicate GoodConfig(cfg: Config) {
    cfg.token != [] && |cfg.name| <= 65535 && |cfg.path| <= 65535
  }

  /** A well-formed hello goes out, carries a proof that verifies, and is read back by the server as it was sent. */
  lemma HelloArrives(c: Suite, cfg: Config, h: Hello)
    requires KeyLaws(c) && GoodConfig(cfg) && GoodHello(h)
    ensures var start := ClientStart(c, cfg, h);
            && start.Ok?
            && var (init, wire) := start.value;
               && ReadInitV3(wire, MAX_FRAME) == Ok((init, []))
               && AuthProofOk(c, cfg, init)
               && SameCovered(init, UnprovenInit(c, h)) && ValidInitV3(init)
  {
    hide EncodeInitV3, WriteInitV3, ReadInitV3, Transcript.Layout, AuthKey;
    var bare := UnprovenInit(c, h);
    var t := Transcript(cfg.name, cfg.path, bare, None);
    var proven := bare.(authProof := Proof(c, cfg.token, t));
    var init := proven.(padding := h.pad);
    WritableInit(proven);
    WritableInit(init);
    InitMessage(init, []);
    var wire := WriteInitV3(init).value;
    assert wire + [] == wire;
    SameLayout(t, Transcript(cfg.name, cfg.path, init, None));
  }

  /** Proof and padding are not part of the transcript. */
  lemma SameLayout(s: Transcript, t: Transcript)
    requires s.name == t.name && s.path == t.path && s.server == t.server && SameCovered(s.init, t.init)
    ensures s.Valid() == t.Valid() && (s.Valid() ==> s.Layout() == t.Layout())
  {
    assert s.init.sessionId == s.init.(authProof := [], padding := []).sessionId;
  }

  /**
   * The server answers an init exactly when it has the required capabilities, and the answer is one the
   * server can send.
   */
  lemma ServerAnswers(c: Suite, cfg: Config, init: ChannelInit, sk: Bytes, nonce: Bytes, nowUnix: i64, maxStreams: u32)
    requires KeyLaws(c) && GoodConfig(cfg) && ValidInitV3(init) && |sk| == 32 && |nonce| == 32
    requires !IsZero(c.shared(sk, init.clientEphPk))
    ensures var reply := ServerReply(c, cfg, init, sk, nonce, nowUnix, maxStreams);
            && (reply.Ok? <==> And(init.capabilities, REQUIRED) == REQUIRED)
            && (reply.Ok? ==>
               var (done, accept) := reply.value;
               && ValidAcceptV3(accept) && WriteAcceptV3(accept).Ok?
               && accept.serverEphPk == c.publicKey(sk) && accept.serverNonce == nonce && accept.cipher == done.cipher
               && accept.capabilities == done.capabilities && And(done.capabilities, REQUIRED) == REQUIRED
               && SupportedCipher(done.cipher)
               && |done.keys.seed| == 32 && |done.keys.c2sPrefix| == |done.keys.s2cPrefix| == 4
               && var t := FullTranscript(cfg, init, ServerPart(accept.serverEphPk, nonce, done.cipher));
                  && t.Valid() && accept.serverProof == Proof(c, cfg.token, t)
                  && DeriveKeys(c, cfg.token, c.hash(t.Layout()), c.shared(sk, init.clientEphPk)) == Ok(done.keys))
  {
    hide Transcript.Layout, AuthKey, WriteAcceptV3, And;
    assert SupportedCipher(init.cipherPref[0]);
    var reply := ServerReply(c, cfg, init, sk, nonce, nowUnix, maxStreams);
    if reply.Ok? {
      RequiredIsCurrent();
      KeepRequired(init.capabilities, CURRENT_CAPABILITIES, REQUIRED);
      WritableAccept(reply.value.1);
    }
  }

  /** The client, on receiving that answer, derives what the server derived. */
  lemma ClientFollows(c: Suite, cfg: Config, h: Hello, init: ChannelInit, accept: ChannelAccept, done: Done, sk: Bytes)
    requires KeyLaws(c) && |h.sk| == 32 && |sk| == 32
    requires init.clientEphPk == c.publicKey(h.sk) && accept.serverEphPk == c.publicKey(sk)
    requires !IsZero(c.shared(sk, init.clientEphPk))
    requires ValidAcceptV3(accept) && WriteAcceptV3(accept).Ok?
    requires accept.cipher == done.cipher && accept.capabilities == done.capabilities
    requires And(done.capabilities, REQUIRED) == REQUIRED
    requires var t := FullTranscript(cfg, init, ServerPart(accept.serverEphPk, accept.serverNonce, done.cipher));
             && t.Valid() && accept.serverProof == Proof(c, cfg.token, t)
             && DeriveKeys(c, cfg.token, c.hash(t.Layout()), c.shared(sk, init.clientEphPk)) == Ok(done.keys)
    ensures ClientFinish(c, cfg, h, init, WriteAcceptV3(accept).value) == Ok(done)
  {
    hide Transcript.Layout, AuthKey, WriteAcceptV3, ReadAnswerV3, And, DeriveKeys, Proof, Transcript.Valid;
    AcceptMessage(accept, []);
    assert WriteAcceptV3(accept).value + [] == WriteAcceptV3(accept).value;
    assert c.shared(h.sk, accept.serverEphPk) == c.shared(sk, init.clientEphPk);
  }

  /** A fresh hello passes every check of the server. */
  lemma HelloIsFresh(c: Suite, cfg: Config, h: Hello, init: ChannelInit, now: int, skew: int, remembered: seq<N.Entry>)
    requires SameCovered(init, UnprovenInit(c, h)) && AuthProofOk(c, cfg, init)
    requires TimeOk(now, h.timestamp, skew) && T.Timely(h.tai64n, now, skew)
    requires !N.Holds(N.Purged(remembered, now, skew), N.Key(h.sessionId, h.channelId, h.nonce))
    ensures Admits(c, cfg, init, now, skew, remembered)
    ensures And(init.capabilities, REQUIRED) == REQUIRED && init.clientEphPk == c.publicKey(h.sk)
  {
    RequiredIsCurrent();
    hide And;
    hide AuthProofOk, N.Purged, N.Holds, TimeOk;
    assert init.sessionId == init.(authProof := [], padding := []).sessionId;
  }

  /**
   * Agreement: with the same non-empty token, name and path, the messages delivered unchanged and the
   * freshness checks passing, both sides finish, and with the same keys, cipher and capabilities,
   * whatever padding the client added.
   */
  method Agree(c: Suite, cfg: Config, h: Hello, now: int, nowUnix: i64, skew: int, nonces: N.Cache, stamps: T.Cache,
               sk: Bytes, nonce: Bytes, maxStreams: u32)
    returns (client: Result<Done, string>, server: Result<(Done, Bytes), string>)
    requires KeyLaws(c) && GoodConfig(cfg) && GoodHello(h) && |sk| == 32 && |nonce| == 32
    requires nonces.Valid() && stamps.Valid()
    requires TimeOk(now, h.timestamp, skew) && T.Timely(h.tai64n, now, skew)
    requires !N.Holds(N.Purged(nonces.Items(), now, skew), N.Key(h.sessionId, h.channelId, h.nonce))
    requires !IsZero(c.shared(sk, c.publicKey(h.sk)))
    modifies nonces, stamps, stamps.evict
    ensures client.Ok? && server.Ok? && client.value == server.value.0
    ensures var done := client.value;
            && |done.keys.seed| == 32 && |done.keys.c2sPrefix| == |done.keys.s2cPrefix| == 4
            && SupportedCipher(done.cipher)
  {
    var start := ClientStart(c, cfg, h);
    HelloArrives(c, cfg, h);
    var (init, wire) := start.value;
    hide ClientFinish, ReadInitV3, WriteAcceptV3, ServerReply, AuthProofOk, Proof, DeriveKeys, Transcript.Layout,
         Transcript.Valid;
    hide N.Purged, N.After, N.Holds, T.Timely, And, ClientStart, Admits, SameCovered, TimeOk;
    HelloIsFresh(c, cfg, h, init, now, skew, nonces.Items());
    ServerAnswers(c, cfg, init, sk, nonce, nowUnix, maxStreams);
    var (done, accept) := ServerReply(c, cfg, init, sk, nonce, nowUnix, maxStreams).value;
    ClientFollows(c, cfg, h, init, accept, done, sk);
    server := Serve(c, cfg, wire, now, nowUnix, skew, nonces, stamps, true, sk, nonce, maxStreams);
    client := ClientFinish(c, cfg, h, init, server.value.1);
  }

  /**
   * A server that finds the proof of an init valid, when a client made that proof, agrees with the client
   * on token, name, path and every field of the init that a transcript covers, unless a primitive collides.
   */
  lemma ServerAgreesWithClient(c: Suite, cfgC: Config, h: Hello, cfgS: Config, initS: ChannelInit)
    requires ClientStart(c, cfgC, h).Ok? && AuthProofOk(c, cfgS, initS)
    requires initS.authProof == ClientStart(c, cfgC, h).value.0.authProof
    ensures var s := Transcript(cfgC.name, cfgC.path, UnprovenInit(c, h), None);
            var t := Transcript(cfgS.name, cfgS.path, initS, None);
            && s.Valid() && t.Valid()
            && (Collision(c, cfgC.token, s, cfgS.token, t) || (cfgC == cfgS && SameCovered(UnprovenInit(c, h), initS)))
  {
    hide Transcript.Layout, Transcript.Valid, AuthKey, Proof, EncodeInitV3, WriteInitV3, SameCovered;
    var s := Transcript(cfgC.name, cfgC.path, UnprovenInit(c, h), None);
    var t := Transcript(cfgS.name, cfgS.path, initS, None);
    ProofBinds(c, cfgC.token, s, cfgS.token, t);
  }

  /** The transcript a client's acceptance rests on, and the one a server's answer was computed over. */
  ghost function SeenBy(cfg: Config, init: ChannelInit, a: ChannelAccept): Transcript {
    FullTranscript(cfg, init, ServerPart(a.serverEphPk, a.serverNonce, a.cipher))
  }

  /** Some primitive gives the same output on two different inputs of this handshake. */
  ghost predicate Collision(c: Suite, a: Bytes, s: Transcript, b: Bytes, t: Transcript)
    requires s.Valid() && t.Valid()
  {
    || HmacCollision(c, AuthKey(c, a, s.name), c.hash(s.Layout()), AuthKey(c, b, t.name), c.hash(t.Layout()))
    || HashCollision(c, s.Layout(), t.Layout())
    || AuthKeyCollision(c, a, b, s.name)
  }

  /**
   * Conversely: a client that finishes on a proof which a server run produced agrees with that server on
   * token, name, path, every transcript field, cipher and keys, unless a primitive collides.
   */
  lemma ClientAgreesWithServer(c: Suite, cfgC: Config, h: Hello, initC: ChannelInit, answer: Bytes,
                               cfgS: Config, initS: ChannelInit, sk: Bytes, nonce: Bytes, nowUnix: i64, maxStreams: u32)
    requires KeyLaws(c) && initC.clientEphPk == c.publicKey(h.sk)
    requires ClientFinish(c, cfgC, h, initC, answer).Ok?
    requires ServerReply(c, cfgS, initS, sk, nonce, nowUnix, maxStreams).Ok?
    requires ReadAnswerV3(answer, MAX_FRAME).Ok? && ReadAnswerV3(answer, MAX_FRAME).value.0.Accepted?
    requires ReadAnswerV3(answer, MAX_FRAME).value.0.accept.serverProof
             == ServerReply(c, cfgS, initS, sk, nonce, nowUnix, maxStreams).value.1.serverProof
    ensures var a := ReadAnswerV3(answer, MAX_FRAME).value.0.accept;
            var (doneS, acceptS) := ServerReply(c, cfgS, initS, sk, nonce, nowUnix, maxStreams).value;
            var doneC := ClientFinish(c, cfgC, h, initC, answer).value;
            var s, t := SeenBy(cfgC, initC, a), SeenBy(cfgS, initS, acceptS);
            && s.Valid() && t.Valid()
            && (|| Collision(c, cfgC.token, s, cfgS.token, t)
                || (cfgC == cfgS && SameCovered(initC, initS) && a.serverEphPk == acceptS.serverEphPk &&
                   a.serverNonce == nonce
                    && doneC.cipher == doneS.cipher && doneC.keys == doneS.keys))
  {
    hide Transcript.Layout, Transcript.Valid, AuthKey, Proof, ReadAnswerV3, And, DeriveKeys, FirstSupported,
         SameCovered;
    var a := ReadAnswerV3(answer, MAX_FRAME).value.0.accept;
    var (doneS, acceptS) := ServerReply(c, cfgS, initS, sk, nonce, nowUnix, maxStreams).value;
    var s, t := SeenBy(cfgC, initC, a), SeenBy(cfgS, initS, acceptS);
    assert s.Valid() && t.Valid() && Proof(c, cfgC.token, s) == Proof(c, cfgS.token, t);
    ProofBinds(c, cfgC.token, s, cfgS.token, t);
    if !Collision(c, cfgC.token, s, cfgS.token, t) {
      SameLayout(s, t);
      SamePublicKey(initC, initS);
      assert c.shared(h.sk, a.serverEphPk) == c.shared(sk, initS.clientEphPk);
    }
  }

  lemma SamePublicKey(a: ChannelInit, b: ChannelInit)
    requires SameCovered(a, b)
    ensures a.clientEphPk == b.clientEphPk
  {
    assert a.clientEphPk == a.(authProof := [], padding := []).clientEphPk;
  }

  // ---- what each side has checked and what its keys rest on --------------------------------------

  /** What goes out is what the hello says. */
  lemma HelloFields(c: Suite, cfg: Config, h: Hello)
    requires ClientStart(c, cfg, h).Ok?
    ensures var init := ClientStart(c, cfg, h).value.0;
            && init.sessionId == h.sessionId && init.channelId == h.channelId && init.clientNonce == h.nonce
            && init.timestamp == h.timestamp && init.tai64n == h.tai64n && init.cipherPref == h.pref
            && init.clientEphPk == c.publicKey(h.sk) && init.padding == h.pad
            && (forall b: nat :: Bit(init.capabilities, b) <==> b <= 6 || b == 9 || b == 12)
  {
    hide EncodeInitV3, WriteInitV3, Transcript.Layout, Transcript.Valid, AuthKey;
    forall b: nat
      ensures Bit(CURRENT_CAPABILITIES, b) <==> b <= 6 || b == 9 || b == 12
    {
      CurrentBits(b);
    }
  }

  lemma CurrentBits(b: nat)
    ensures Bit(CURRENT_CAPABILITIES, b) <==> b <= 6 || b == 9 || b == 12
  {
    hide Bit;
    // one bit at a time, from the bottom
    BitStep(CURRENT_CAPABILITIES, b, 0); BitStep(2367, b, 1); BitStep(1183, b, 2); BitStep(591, b, 3);
    BitStep(295, b, 4); BitStep(147, b, 5); BitStep(73, b, 6); BitStep(36, b, 7); BitStep(18, b, 8);
    BitStep(9, b, 9); BitStep(4, b, 10); BitStep(2, b, 11); BitStep(1, b, 12);
    if b >= 13 {
      BitZero(b - 13);
    }
  }

  /** TCP (0), ping (2), TCP status (4), status codes (6) and forward secrecy (12). */
  lemma RequiredBits(b: nat)
    ensures Bit(REQUIRED, b) <==> b == 0 || b == 2 || b == 4 || b == 6 || b == 12
  {
    hide Bit;
    BitStep(REQUIRED, b, 0); BitStep(2090, b, 1); BitStep(1045, b, 2); BitStep(522, b, 3);
    BitStep(261, b, 4); BitStep(130, b, 5); BitStep(65, b, 6); BitStep(32, b, 7); BitStep(16, b, 8);
    BitStep(8, b, 9); BitStep(4, b, 10); BitStep(2, b, 11); BitStep(1, b, 12);
    if b >= 13 {
      BitZero(b - 13);
    }
  }

  lemma BitStep(x: nat, b: nat, k: nat)
    ensures b == k ==> (Bit(x, b - k) <==> x % 2 == 1)
    ensures b > k ==> (Bit(x, b - k) <==> Bit(x / 2, b - k - 1))
  {
  }

  /**
   * What the server offers: the capabilities both have, the client's first supported cipher, and its own
   * nonce, time and limits.
   */
  lemma ServerOffers(c: Suite, cfg: Config, init: ChannelInit, sk: Bytes, nonce: Bytes, nowUnix: i64, maxStreams: u32)
    requires ServerReply(c, cfg, init, sk, nonce, nowUnix, maxStreams).Ok?
    ensures var (done, a) := ServerReply(c, cfg, init, sk, nonce, nowUnix, maxStreams).value;
            && (forall b: nat :: Bit(done.capabilities, b) <==>
               Bit(init.capabilities, b) && Bit(CURRENT_CAPABILITIES, b))
            && Covers(init.capabilities, REQUIRED)
            && IsFirstSupported(init.cipherPref, done.cipher)
            && a.capabilities == done.capabilities && a.cipher == done.cipher
            && a.serverNonce == nonce && a.serverTime == nowUnix && a.maxFrameSize == MAX_FRAME
            && a.maxStreams == maxStreams && a.message == []
  {
    hide Transcript.Layout, Transcript.Valid, AuthKey, DeriveKeys, And;
    MaskedIff(init.capabilities, REQUIRED);
    forall b: nat
      ensures Bit(And(init.capabilities, CURRENT_CAPABILITIES), b) <==>
              Bit(init.capabilities, b) && Bit(CURRENT_CAPABILITIES, b)
    {
      BitAnd(init.capabilities, CURRENT_CAPABILITIES, b);
    }
  }

  /**
   * A client finishes exactly when the answer is an accept with what it needs, an exchange that works and a
   * valid proof.
   */
  lemma ClientFinishesIff(c: Suite, cfg: Config, h: Hello, init: ChannelInit, answer: Bytes)
    requires KeyLaws(c)
    ensures var read := ReadAnswerV3(answer, MAX_FRAME);
            ClientFinish(c, cfg, h, init, answer).Ok? <==>
            && cfg.token != [] && |h.sk| == 32
            && read.Ok? && read.value.0.Accepted?
            && var a := read.value.0.accept;
               && Covers(a.capabilities, REQUIRED)
               && |a.serverEphPk| == 32 && |a.serverProof| == 32 && c.shared(h.sk, a.serverEphPk) != Zeros(32)
               && ServerProofOk(c, cfg, init, a)
    ensures var done := ClientFinish(c, cfg, h, init, answer);
            done.Ok? ==>
              var a := ReadAnswerV3(answer, MAX_FRAME).value.0.accept;
              done.value.capabilities == a.capabilities && done.value.cipher == a.cipher
  {
    hide ReadAnswerV3, Transcript.Layout, Transcript.Valid, AuthKey, Proof, And, Covers;
    var read := ReadAnswerV3(answer, MAX_FRAME);
    if read.Ok? && read.value.0.Accepted? {
      MaskedIff(read.value.0.accept.capabilities, REQUIRED);
    }
  }

  /** The keys were derived from this token, transcript and shared secret. */
  ghost predicate RestOn(c: Suite, keys: RawKeys, token: Bytes, t: Transcript, shared: Bytes) {
    t.Valid() && DeriveKeys(c, token, c.hash(t.Layout()), shared) == Ok(keys)
  }

  /** Keys with the same seed rest on the same token, shared secret and transcript, unless a primitive collides. */
  lemma SeedBinds(c: Suite, k: RawKeys, a: Bytes, s: Transcript, x: Bytes, l: RawKeys, b: Bytes, t: Transcript,
    y: Bytes)
    requires RestOn(c, k, a, s, x) && RestOn(c, l, b, t, y) && k.seed == l.seed
    ensures || (a == b && x == y && s.name == t.name && s.path == t.path && SameCovered(s.init, t.init) &&
            s.server == t.server)
            || SeedCollision(c, a, c.hash(s.Layout()), x, b, c.hash(t.Layout()), y)
            || HashCollision(c, s.Layout(), t.Layout())
  {
    hide Transcript.Layout, SameCovered, DeriveKeys, SeedCollision;
    DeriveBinds(c, a, c.hash(s.Layout()), x, b, c.hash(t.Layout()), y);
    if s.Layout() == t.Layout() {
      LayoutInjective(s, t);
    }
  }

  lemma ClientKeysRestOn(c: Suite, cfg: Config, h: Hello, init: ChannelInit, answer: Bytes)
    requires ClientFinish(c, cfg, h, init, answer).Ok?
    ensures var read := ReadAnswerV3(answer, MAX_FRAME);
            && read.Ok? && read.value.0.Accepted?
            && var a := read.value.0.accept;
               RestOn(c, ClientFinish(c, cfg, h, init, answer).value.keys, cfg.token, SeenBy(cfg, init, a),
                      c.shared(h.sk, a.serverEphPk))
  {
    hide ReadAnswerV3, Transcript.Layout, Transcript.Valid, AuthKey, Proof, And, IsZero, DeriveKeys;
  }

  lemma ServerKeysRestOn(c: Suite, cfg: Config, init: ChannelInit, sk: Bytes, nonce: Bytes, nowUnix: i64,
    maxStreams: u32)
    requires ServerReply(c, cfg, init, sk, nonce, nowUnix, maxStreams).Ok?
    ensures var (done, a) := ServerReply(c, cfg, init, sk, nonce, nowUnix, maxStreams).value;
            RestOn(c, done.keys, cfg.token, SeenBy(cfg, init, a), c.shared(sk, init.clientEphPk))
  {
    hide Transcript.Layout, Transcript.Valid, AuthKey, Proof, And, IsZero, DeriveKeys;
  }

  /**
   * A client and a server run that end with the same seed have the same token, name, path, shared secret
   * and transcript, unless a primitive collides; so do two runs of the same side (SeedBinds).
   */
  lemma SameSeedSameHandshake(c: Suite, cfgC: Config, h: Hello, initC: ChannelInit, answer: Bytes,
                              cfgS: Config, initS: ChannelInit, sk: Bytes, nonce: Bytes, nowUnix: i64, maxStreams: u32)
    requires ClientFinish(c, cfgC, h, initC, answer).Ok?
    requires ServerReply(c, cfgS, initS, sk, nonce, nowUnix, maxStreams).Ok?
    requires ClientFinish(c, cfgC, h, initC, answer).value.keys.seed ==
             ServerReply(c, cfgS, initS, sk, nonce, nowUnix, maxStreams).value.0.keys.seed
    ensures ReadAnswerV3(answer, MAX_FRAME).Ok? && ReadAnswerV3(answer, MAX_FRAME).value.0.Accepted?
    ensures var a := ReadAnswerV3(answer, MAX_FRAME).value.0.accept;
            var acceptS := ServerReply(c, cfgS, initS, sk, nonce, nowUnix, maxStreams).value.1;
            var s, t := SeenBy(cfgC, initC, a), SeenBy(cfgS, initS, acceptS);
            var x, y := c.shared(h.sk, a.serverEphPk), c.shared(sk, initS.clientEphPk);
            && s.Valid() && t.Valid()
            && (|| (cfgC == cfgS && x == y && SameCovered(initC, initS) && s.server == t.server)
                || SeedCollision(c, cfgC.token, c.hash(s.Layout()), x, cfgS.token, c.hash(t.Layout()), y)
                || HashCollision(c, s.Layout(), t.Layout()))
  {
    hide ClientFinish, ServerReply, ReadAnswerV3, Transcript.Layout, Transcript.Valid, SameCovered, SeedCollision,
         DeriveKeys;
    ClientKeysRestOn(c, cfgC, h, initC, answer);
    ServerKeysRestOn(c, cfgS, initS, sk, nonce, nowUnix, maxStreams);
    var a := ReadAnswerV3(answer, MAX_FRAME).value.0.accept;
    var (doneS, acceptS) := ServerReply(c, cfgS, initS, sk, nonce, nowUnix, maxStreams).value;
    SeedBinds(c, ClientFinish(c, cfgC, h, initC, answer).value.keys, cfgC.token, SeenBy(cfgC, initC, a),
              c.shared(h.sk, a.serverEphPk), doneS.keys, cfgS.token, SeenBy(cfgS, initS, acceptS),
              c.shared(sk, initS.clientEphPk));
  }
}
