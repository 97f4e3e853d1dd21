/** The handshake and the record layer together. */
module Tunnel {
  import opened Bytes
  import opened Outcomes
  import opened Crypto
  import opened Records
  import opened Framing
  import opened Session
  import opened Handshake
  import W = RecordWriter
  import R = RecordReader
  import N = NonceCache
  import T = Tai64nCache

  /**
   * One stream after a handshake: each side makes its end from the keys and the cipher that it ended the
   * handshake with, for any stream ID; what one end writes is what the other reads, in either direction.
   */
  method OverAgreedKeys(c: Suite, client: Done, server: Done, streamId: u32, fromClient: bool, coalesce: bool,
                        randomness: nat -> Bytes, timer: nat -> bool, hostPort: Bytes -> bool, ms: seq<Message>)
    returns (received: seq<Message>, w: W.Writer)
    requires AeadLaws(c) && client.keys == server.keys && client.cipher == server.cipher
    requires SupportedCipher(client.cipher)
    requires |client.keys.seed| == 32 && |client.keys.c2sPrefix| == |client.keys.s2cPrefix| == 4
    requires forall i :: 0 <= i < |ms| ==> ms[i].Sendable(hostPort)
    ensures fresh(w) && w.Valid() && w.suite == c
    ensures w.lane == Lane(client.keys, client.cipher, streamId, fromClient, DEFAULT_REKEY)
    ensures w.counter < MAX_U64 ==> received == ms && w.taken == WireOf(ms)
  {
    hide W.Writer.Valid, R.Reader.Valid, Clean, Flows, Stream, Frames, AeadLaws, Message.Sendable;
    var sender, receiver := if fromClient then client else server, if fromClient then server else client;
    var near := NewStream(c, sender.keys, sender.cipher, streamId, fromClient, randomness, []);
    w := near.value.0;
    w.Configure(true, coalesce);
    SendAll(w, timer, ms);
    received := [];
    if w.counter < MAX_U64 {
      FlushedStream(w);
      var far := NewStream(c, receiver.keys, receiver.cipher, streamId, !fromClient, randomness, Concat(w.wire));
      var r := far.value.1;
      assert r.lane == w.lane;
      received := Receive(r, hostPort, ms, seq(|ms|, i requires 0 <= i < |ms| => ms[i].Kind()));
    }
  }

  /**
   * From the client's hello to the last message: under the conditions of Handshake.Agree the handshake
   * succeeds, and messages sent from either side on any stream arrive as they were sent, unless the
   * counter has run out.
   */
  method Connect(c: Suite, cfg: Config, h: Hello, now: int, nowUnix: i64, skew: int, nonces: N.Cache, stamps: T.Cache,
                 sk: Bytes, nonce: Bytes, maxStreams: u32, streamId: u32, fromClient: bool, coalesce: bool,
                 randomness: nat -> Bytes, timer: nat -> bool, hostPort: Bytes -> bool, ms: seq<Message>)
    returns (received: seq<Message>, w: W.Writer)
    requires AeadLaws(c) && KeyLaws(c) && GoodConfig(cfg) && GoodHello(h) && |sk| == 32 && |nonce| == 32
    requires nonces.Valid() && stamps.Valid()
    requires TimeOk(now, h.timestamp, skew) && T.Timely(h.tai64n, now, skew)
    requires !N.Holds(N.Purged(nonces.Items(), now, skew), N.Key(h.sessionId, h.channelId, h.nonce))
    requires !IsZero(c.shared(sk, c.publicKey(h.sk)))
    requires forall i :: 0 <= i < |ms| ==> ms[i].Sendable(hostPort)
    modifies nonces, stamps, stamps.evict
    ensures w.Valid() && w.suite == c && (w.counter < MAX_U64 ==> received == ms && w.taken == WireOf(ms))
  {
    hide W.Writer.Valid, AeadLaws, KeyLaws, GoodHello, N.Purged, N.Holds, T.Timely, TimeOk, IsZero, Message.Sendable;
    var client, server := Agree(c, cfg, h, now, nowUnix, skew, nonces, stamps, sk, nonce, maxStreams);
    received, w := OverAgreedKeys(c, client.value, server.value.0, streamId, fromClient, coalesce, randomness, timer,
                                  hostPort, ms);
  }
}
