/** The byte layout that the handshake proofs and keys are computed over (channelInitTranscriptV3). */
module Transcript {
  import opened Bytes
  import opened Outcomes
  import opened Crypto
  import opened Records
  import opened Channel

  /** What the server adds to the transcript. */
  datatype ServerPart = ServerPart(ephPk: Bytes, nonce: Bytes, cipher: u8)

  /** The init transcript has no server part, the full transcript has one. */
  datatype Transcript = Transcript(name: Bytes, path: Bytes, init: ChannelInit, server: Option<ServerPart>) {
    predicate Valid() {
      && |init.sessionId| == 16 && init.channelId != 0 && |init.clientNonce| == 32
      && |init.clientEphPk| == 32 && |init.tai64n| == 12 && SupportedPref(init.cipherPref)
      && |name| <= 65535 && |path| <= 65535
      && (server.Some? ==>
            |server.value.ephPk| == 32 && |server.value.nonce| == 32 && SupportedCipher(server.value.cipher))
    }

    // The layout, from the back to the front.

    function Stamp(): Bytes {
      init.tai64n + match server case None => [] case Some(s) => [s.cipher] + s.nonce
    }

    function PathOn(): Bytes { Be(|path|, 2) + (path + Stamp()) }

    function NameOn(): Bytes { Be(|name|, 2) + (name + PathOn()) }

    function PrefOn(): Bytes
      requires Valid()
    {
      [|init.cipherPref|] + (init.cipherPref + NameOn())
    }

    function Keys(): Bytes {
      init.clientEphPk + if server.Some? then server.value.ephPk else Zeros(32)
    }

    function Numbers(): Bytes {
      Be(U64OfI64(init.timestamp), 8) + Be(init.capabilities, 8)
    }

    function Ids(): Bytes {
      [1, 3, 0, 0] + init.sessionId + Be(init.channelId, 4) + init.clientNonce
    }

    function Layout(): Bytes
      requires Valid()
    {
      Ids() + (Numbers() + (Keys() + PrefOn()))
    }
  }

  // ---- the code: a zeroed buffer filled by offset ----------------------------------------------

  /** Copy a field to the current offset. */
  method Put(buf: array<u8>, off: nat, field: Bytes) returns (next: nat)
    requires off + |field| <= buf.Length
    modifies buf
    ensures next == off + |field|
    ensures buf[..next] == old(buf[..off]) + field
    ensures forall j :: next <= j < buf.Length ==> buf[j] == old(buf[j])
  {
    CopyInto(buf, off, field);
    next := off + |field|;
    forall j | next <= j < buf.Length
      ensures buf[j] == old(buf[j])
    {
      assert buf[next..][j - next] == old(buf[next..])[j - next];
    }
    assert buf[..next] == buf[..off] + buf[off..next];
  }

  /** Bytes 0 to 72: fixed header, session, channel, nonce, time and capabilities. */
  method PutFixed(buf: array<u8>, t: Transcript)
    requires t.Valid() && buf.Length >= 72
    modifies buf
    ensures buf[..72] == t.Ids() + t.Numbers()
    ensures forall j :: 72 <= j < buf.Length ==> buf[j] == old(buf[j])
  {
    hide Be, U64OfI64;
    var i := t.init;
    var off := Put(buf, 0, [1, 3, 0, 0]);
    off := Put(buf, off, i.sessionId);
    off := Put(buf, off, Be(i.channelId, 4));
    off := Put(buf, off, i.clientNonce);
    assert buf[..off] == t.Ids();
    off := Put(buf, off, Be(U64OfI64(i.timestamp), 8));
    off := Put(buf, off, Be(i.capabilities, 8));
  }

  /** Bytes 72 to 136: the two public keys. The server's place keeps its zeros in the init transcript. */
  method PutKeys(buf: array<u8>, t: Transcript)
    requires t.Valid() && buf.Length >= 136 && buf[104..136] == Zeros(32)
    modifies buf
    ensures buf[..136] == old(buf[..72]) + t.Keys()
    ensures forall j :: 136 <= j < buf.Length ==> buf[j] == old(buf[j])
  {
    var off := Put(buf, 72, t.init.clientEphPk);
    assert buf[104..136] == Zeros(32);
    if t.server.Some? {
      off := Put(buf, 104, t.server.value.ephPk);
    }
    assert buf[..136] == buf[..104] + buf[104..136];
  }

  /** A field preceded by its 16-bit length; `tail` stands for what will follow it. */
  method PutSized(buf: array<u8>, off: nat, field: Bytes, ghost tail: Bytes) returns (next: nat)
    requires off + 2 + |field| <= buf.Length
    modifies buf
    ensures next == off + 2 + |field|
    ensures buf[..next] + tail == old(buf[..off]) + (Be(|field|, 2) + (field + tail))
  {
    hide Be;
    next := Put(buf, off, Be(|field|, 2));
    next := Put(buf, next, field);
  }

  /** From byte 136 to the end of the path. */
  method PutNames(buf: array<u8>, t: Transcript) returns (off: nat)
    requires t.Valid() && buf.Length >= 137 + |t.init.cipherPref| + 2 + |t.name| + 2 + |t.path|
    modifies buf
    ensures off == 137 + |t.init.cipherPref| + 2 + |t.name| + 2 + |t.path|
    ensures buf[..off] + t.Stamp() == old(buf[..136]) + t.PrefOn()
  {
    hide Be, Transcript.Stamp;
    off := Put(buf, 136, [|t.init.cipherPref|]);
    off := Put(buf, off, t.init.cipherPref);
    assert buf[..off] + t.NameOn() == old(buf[..136]) + t.PrefOn();
    off := PutSized(buf, off, t.name, t.PathOn());
    off := PutSized(buf, off, t.path, t.Stamp());
  }

  /** The timestamp, and for the full transcript the chosen cipher and the server's nonce. */
  method PutStamp(buf: array<u8>, start: nat, t: Transcript)
    requires t.Valid() && buf.Length == start + |t.Stamp()|
    modifies buf
    ensures buf[..] == old(buf[..start]) + t.Stamp()
  {
    var off := Put(buf, start, t.init.tai64n);
    if t.server.Some? {
      off := Put(buf, off, [t.server.value.cipher]);
      off := Put(buf, off, t.server.value.nonce);
    }
    assert buf[..off] == buf[..];
  }

  lemma LayoutFlat(t: Transcript)
    requires t.Valid()
    ensures t.Layout() == t.Ids() + t.Numbers() + t.Keys() + t.PrefOn()
  {
  }

  /** Lines 572-613: the checks on the fields. */
  method Check(t: Transcript) returns (ok: bool)
    ensures ok <==> t.Valid()
  {
    var i := t.init;
    if |i.sessionId| != 16 || i.channelId == 0 || |i.clientNonce| != 32 || |i.clientEphPk| != 32 || |i.tai64n| != 12 {
      return false;
    }
    if t.server.Some? {
      var s := t.server.value;
      if |s.ephPk| != 32 || |s.nonce| != 32 || !(s.cipher == 1 || s.cipher == 2 || s.cipher == 3) {
        return false;
      }
    }
    if |i.cipherPref| < 1 || |i.cipherPref| > 8 {
      return false;
    }
    for k := 0 to |i.cipherPref|
      invariant forall j :: 0 <= j < k ==> SupportedCipher(i.cipherPref[j])
    {
      if !(1 <= i.cipherPref[k] <= 3) {
        return false;
      }
    }
    return |t.name| <= 65535 && |t.path| <= 65535;
  }

  /** channelInitTranscriptV3 */
  method Fill(t: Transcript) returns (r: Result<Bytes, string>)
    ensures r == if t.Valid() then Ok(t.Layout()) else Err("invalid transcript field")
  {
    var ok := Check(t);
    if !ok {
      return Err("invalid transcript field");
    }
    hide Be, Transcript.Ids, Transcript.Numbers, Transcript.Keys, Transcript.PrefOn, Transcript.Layout;
    var total := 137 + |t.init.cipherPref| + 2 + |t.name| + 2 + |t.path| + 12 + if t.server.Some? then 1 + 32 else 0;
    var buf := new u8[total](_ => 0);
    PutFixed(buf, t);
    assert buf[104..136] == Zeros(32);
    PutKeys(buf, t);
    var off := PutNames(buf, t);
    PutStamp(buf, off, t);
    LayoutFlat(t);
    return Ok(buf[..]);
  }

  // ---- injectivity -----------------------------------------------------------------------------

  lemma Peel(a: Bytes, x: Bytes, b: Bytes, y: Bytes)
    requires |a| == |b| && a + x == b + y
    ensures a == b && x == y
  {
    DropLeft(a, x);
    DropLeft(b, y);
    SliceLeft(a, x, 0, |a|);
    SliceLeft(b, y, 0, |b|);
  }

  /** A field preceded by its own 16-bit length. */
  lemma PeelSized(a: Bytes, x: Bytes, b: Bytes, y: Bytes)
    requires |a| <= 65535 && |b| <= 65535
    requires Be(|a|, 2) + (a + x) == Be(|b|, 2) + (b + y)
    ensures a == b && x == y
  {
    hide Be;
    Peel(Be(|a|, 2), a + x, Be(|b|, 2), b + y);
    Widths();
    BeInjective(|a|, |b|, 2);
    Peel(a, x, b, y);
  }

  /** Two inits agree on everything that a transcript covers (all but the proof and the padding). */
  ghost predicate SameCovered(a: ChannelInit, b: ChannelInit) {
    a.(authProof := [], padding := []) == b.(authProof := [], padding := [])
  }

  lemma PeelIds(s: Transcript, t: Transcript)
    requires s.Valid() && t.Valid() && s.Ids() == t.Ids()
    ensures s.init.sessionId == t.init.sessionId && s.init.channelId == t.init.channelId
    ensures s.init.clientNonce == t.init.clientNonce
  {
    hide Be;
    var x, y := s.Ids(), t.Ids();
    assert x[4..20] == s.init.sessionId && y[4..20] == t.init.sessionId;
    assert x[20..24] == Be(s.init.channelId, 4) && y[20..24] == Be(t.init.channelId, 4);
    assert x[24..] == s.init.clientNonce && y[24..] == t.init.clientNonce;
    Widths();
    BeInjective(s.init.channelId, t.init.channelId, 4);
  }

  lemma PeelNumbers(s: Transcript, t: Transcript)
    requires s.Numbers() == t.Numbers()
    ensures s.init.timestamp == t.init.timestamp && s.init.capabilities == t.init.capabilities
  {
    hide Be;
    Peel(Be(U64OfI64(s.init.timestamp), 8), Be(s.init.capabilities, 8), Be(U64OfI64(t.init.timestamp), 8),
      Be(t.init.capabilities, 8));
    Widths();
    BeInjective(U64OfI64(s.init.timestamp), U64OfI64(t.init.timestamp), 8);
    BeInjective(s.init.capabilities, t.init.capabilities, 8);
  }

  lemma PeelStamp(s: Transcript, t: Transcript)
    requires s.Valid() && t.Valid() && s.Stamp() == t.Stamp()
    ensures s.init.tai64n == t.init.tai64n && s.server.Some? == t.server.Some?
    ensures s.server.Some? ==>
              s.server.value.cipher == t.server.value.cipher && s.server.value.nonce == t.server.value.nonce
  {
    assert |s.Stamp()| == |t.Stamp()|;
    if s.server.Some? {
      var a, b := s.server.value, t.server.value;
      Peel(s.init.tai64n, [a.cipher] + a.nonce, t.init.tai64n, [b.cipher] + b.nonce);
      Peel([a.cipher], a.nonce, [b.cipher], b.nonce);
    } else {
      Peel(s.init.tai64n, [], t.init.tai64n, []);
    }
  }

  /**
   * The transcript determines every field it covers; in particular an init transcript never equals a
   * full one.
   */
  lemma LayoutInjective(s: Transcript, t: Transcript)
    requires s.Valid() && t.Valid() && s.Layout() == t.Layout()
    ensures s.name == t.name && s.path == t.path && SameCovered(s.init, t.init) && s.server == t.server
  {
    hide Transcript.Ids, Transcript.Numbers, Transcript.Stamp, Be;
    IdsLength(s);
    IdsLength(t);
    Peel(s.Ids(), s.Numbers() + (s.Keys() + s.PrefOn()), t.Ids(), t.Numbers() + (t.Keys() + t.PrefOn()));
    Peel(s.Numbers(), s.Keys() + s.PrefOn(), t.Numbers(), t.Keys() + t.PrefOn());
    Peel(s.Keys(), s.PrefOn(), t.Keys(), t.PrefOn());
    Peel([|s.init.cipherPref|], s.init.cipherPref + s.NameOn(), [|t.init.cipherPref|], t.init.cipherPref + t.NameOn());
    Peel(s.init.cipherPref, s.NameOn(), t.init.cipherPref, t.NameOn());
    PeelSized(s.name, s.PathOn(), t.name, t.PathOn());
    PeelSized(s.path, s.Stamp(), t.path, t.Stamp());
    PeelStamp(s, t);
    PeelIds(s, t);
    PeelNumbers(s, t);
    assert s.init.clientEphPk == s.Keys()[..32] && t.init.clientEphPk == t.Keys()[..32];
    if s.server.Some? {
      assert s.server.value.ephPk == s.Keys()[32..] && t.server.value.ephPk == t.Keys()[32..];
    }
  }

  lemma IdsLength(t: Transcript)
    requires t.Valid()
    ensures |t.Ids()| == 56 && |t.Numbers()| == 16
  {
    hide Be;
  }
}
