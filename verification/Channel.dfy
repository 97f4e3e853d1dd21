/** The channel handshake messages of internal/wire/protocol_v3.go and protocol_v2.go: bodies and frames. */
module Channel {
  import opened Bytes
  import opened Outcomes
  import opened Tlv
  import opened Records

  const SESSION_ID: u16 := 0x8001
  const CHANNEL_ID: u16 := 0x8002
  const CLIENT_NONCE: u16 := 0x8003
  const TIMESTAMP: u16 := 0x8004
  const CAPABILITIES: u16 := 0x8005
  const AUTH_PROOF: u16 := 0x8006
  const CLIENT_NAME: u16 := 0x0007
  const BUILD_INFO: u16 := 0x0008
  const DESIRED_CHANNELS: u16 := 0x0009
  const TRANSPORT_HINTS: u16 := 0x000a
  const PADDING: u16 := 0x000b
  const SERVER_NONCE: u16 := 0x8010
  const SERVER_TIME: u16 := 0x8011
  const MAX_FRAME_SIZE: u16 := 0x0012
  const MAX_STREAMS: u16 := 0x0013
  const MESSAGE: u16 := 0x0015
  const REJECT_CODE: u16 := 0x8020
  const REJECT_REASON: u16 := 0x0021
  const CIPHER_PREF: u16 := 0x8030
  const CIPHER: u16 := 0x8031
  const CLIENT_EPH_PK: u16 := 0x8032
  const SERVER_EPH_PK: u16 := 0x8033
  const SERVER_PROOF: u16 := 0x8034
  const TAI64N: u16 := 0x8035

  const REJECT_MALFORMED: u8 := 8

  datatype ChannelInit = ChannelInit(
    sessionId: Bytes, channelId: u32, clientNonce: Bytes, timestamp: i64, capabilities: u64, authProof: Bytes,
    cipherPref: Bytes, clientEphPk: Bytes, tai64n: Bytes, padding: Bytes)

  datatype ChannelAccept = ChannelAccept(
    capabilities: u64, serverNonce: Bytes, serverTime: i64, maxFrameSize: u32, maxStreams: u32, message: Bytes,
    cipher: u8, serverEphPk: Bytes, serverProof: Bytes)

  datatype ChannelReject = ChannelReject(code: u8, message: Bytes)

  // ---- fields ----------------------------------------------------------------------------------

  function U32(x: u32): (b: Bytes)
    ensures |b| == 4
  {
    Be(x, 4)
  }

  function U64(x: u64): (b: Bytes)
    ensures |b| == 8
  {
    Be(x, 8)
  }

  function GetU32(b: Bytes): u32
    requires |b| == 4
  {
    Widths();
    Num(b)
  }

  function GetU64(b: Bytes): u64
    requires |b| == 8
  {
    Widths();
    Num(b)
  }

  lemma FieldsReadBack(x: u32, y: u64, t: i64)
    ensures GetU32(U32(x)) == x && GetU64(U64(y)) == y && I64OfU64(GetU64(U64(U64OfI64(t)))) == t
  {
    Widths();
    NumOfBe(x, 4);
    NumOfBe(y, 8);
    NumOfBe(U64OfI64(t), 8);
  }

  predicate SupportedPref(pref: Bytes) {
    1 <= |pref| <= 8 && forall i :: 0 <= i < |pref| ==> SupportedCipher(pref[i])
  }

  /** A record that must be there, with a fixed length unless `size` is None. */
  function Get(m: map<u16, Tlv>, typ: u16, size: Option<nat>): Result<Bytes, string> {
    if typ !in m then Err("missing required record")
    else if size.Some? && |m[typ].value| != size.value then Err("invalid record length")
    else Ok(m[typ].value)
  }

  function Lift<T>(r: Result<T, TlvError>): Result<T, string> {
    match r
    case Ok(v) => Ok(v)
    case Err(_) => Err("invalid records")
  }

  // ---- ChannelInit, version 3 ------------------------------------------------------------------

  predicate ValidInitV3(i: ChannelInit) {
    && |i.sessionId| == 16 && i.channelId != 0 && |i.clientNonce| == 32 && |i.authProof| == 32
    && SupportedPref(i.cipherPref) && |i.clientEphPk| == 32 && |i.tai64n| == 12
  }

  function InitRecordsV3(i: ChannelInit): seq<Tlv> {
    [Tlv(SESSION_ID, i.sessionId), Tlv(CHANNEL_ID, U32(i.channelId)), Tlv(CLIENT_NONCE, i.clientNonce),
     Tlv(TIMESTAMP, U64(U64OfI64(i.timestamp))), Tlv(CAPABILITIES, U64(i.capabilities)), Tlv(AUTH_PROOF, i.authProof),
     Tlv(CIPHER_PREF, i.cipherPref), Tlv(CLIENT_EPH_PK, i.clientEphPk), Tlv(TAI64N, i.tai64n)]
    + if i.padding != [] then [Tlv(PADDING, i.padding)] else []
  }

  function EncodeInitV3(i: ChannelInit): Result<Bytes, string> {
    if !ValidInitV3(i) then Err("invalid channel init") else Lift(Encoded(InitRecordsV3(i)))
  }

  function KnownInitV2(): set<u16> {
    {SESSION_ID, CHANNEL_ID, CLIENT_NONCE, TIMESTAMP, CAPABILITIES, AUTH_PROOF, CLIENT_NAME, BUILD_INFO,
     DESIRED_CHANNELS, TRANSPORT_HINTS, PADDING}
  }

  function KnownInitV3(): set<u16> {
    KnownInitV2() + {CIPHER_PREF, CLIENT_EPH_PK, TAI64N}
  }

  function DecodeInitV3(body: Bytes): Result<ChannelInit, string> {
    var m :- Lift(Parsed(body, Some(KnownInitV3())));
    var sessionId :- Get(m, SESSION_ID, Some(16));
    var channelIdRaw :- Get(m, CHANNEL_ID, Some(4));
    var clientNonce :- Get(m, CLIENT_NONCE, Some(32));
    var timeRaw :- Get(m, TIMESTAMP, Some(8));
    var capsRaw :- Get(m, CAPABILITIES, Some(8));
    var authProof :- Get(m, AUTH_PROOF, Some(32));
    var pref :- Get(m, CIPHER_PREF, None);
    if !SupportedPref(pref) then Err("invalid cipher preference")
    else
      var clientEphPk :- Get(m, CLIENT_EPH_PK, Some(32));
      var tai64n :- Get(m, TAI64N, Some(12));
      if GetU32(channelIdRaw) == 0 then Err("channel id must be positive")
      else Ok(ChannelInit(sessionId, GetU32(channelIdRaw), clientNonce, I64OfU64(GetU64(timeRaw)), GetU64(capsRaw),
                          authProof, pref, clientEphPk, tai64n, if PADDING in m then m[PADDING].value else []))
  }

  /** Where each type stands in a list of records: enough to tell that no type stands there twice. */
  function InitRank(t: u16): nat {
    if t == SESSION_ID then 0 else if t == CHANNEL_ID then 1 else if t == CLIENT_NONCE then 2
    else if t == TIMESTAMP then 3 else if t == CAPABILITIES then 4 else if t == AUTH_PROOF then 5
    else if t == CIPHER_PREF then 6 else if t == CLIENT_EPH_PK then 7 else if t == TAI64N then 8 else 9
  }

  lemma InitRecordsAdmissible(i: ChannelInit)
    ensures Admissible(InitRecordsV3(i), Some(KnownInitV3()))
    ensures forall k :: 0 <= k < |InitRecordsV3(i)| ==> InitRecordsV3(i)[k].typ in KnownInitV3()
  {
    var rs := InitRecordsV3(i);
    forall k | 0 <= k < |rs|
      ensures InitRank(rs[k].typ) == k && rs[k].typ in KnownInitV3()
    {
    }
  }

  function InitFieldV3(i: ChannelInit): u16 -> Option<Bytes> {
    (t: u16) =>
      if t == SESSION_ID then Some(i.sessionId)
      else if t == CHANNEL_ID then Some(U32(i.channelId))
      else if t == CLIENT_NONCE then Some(i.clientNonce)
      else if t == TIMESTAMP then Some(U64(U64OfI64(i.timestamp)))
      else if t == CAPABILITIES then Some(U64(i.capabilities))
      else if t == AUTH_PROOF then Some(i.authProof)
      else if t == CIPHER_PREF then Some(i.cipherPref)
      else if t == CLIENT_EPH_PK then Some(i.clientEphPk)
      else if t == TAI64N then Some(i.tai64n)
      else if t == PADDING && i.padding != [] then Some(i.padding)
      else None
  }

  lemma InitDescribed(i: ChannelInit)
    ensures Describes(InitFieldV3(i), InitRecordsV3(i))
  {
    hide U32, U64, U64OfI64;
  }

  /** The map holds exactly the described value for each type. */
  ghost predicate Holds(m: map<u16, Tlv>, f: u16 -> Option<Bytes>, typ: u16) {
    if f(typ).Some? then typ in m && m[typ].value == f(typ).value else typ !in m
  }

  lemma InitHolds(i: ChannelInit, typ: u16)
    requires typ in KnownInitV3()
    ensures Holds(Collect(InitRecordsV3(i), Some(KnownInitV3())), InitFieldV3(i), typ)
  {
    hide Collect, InitRecordsV3, InitFieldV3, Describes, KnownInitV3;
    InitDescribed(i);
    CollectByField(InitRecordsV3(i), Some(KnownInitV3()), InitFieldV3(i), typ);
  }

  lemma InitGets(i: ChannelInit)
    requires ValidInitV3(i)
    ensures var m := Collect(InitRecordsV3(i), Some(KnownInitV3()));
            && Get(m, SESSION_ID, Some(16)) == Ok(i.sessionId)
            && Get(m, CHANNEL_ID, Some(4)) == Ok(U32(i.channelId))
            && Get(m, CLIENT_NONCE, Some(32)) == Ok(i.clientNonce)
            && Get(m, TIMESTAMP, Some(8)) == Ok(U64(U64OfI64(i.timestamp)))
            && Get(m, CAPABILITIES, Some(8)) == Ok(U64(i.capabilities))
  {
    hide Collect, InitRecordsV3, U64OfI64, U32, U64, SupportedPref;
    InitHolds(i, SESSION_ID);
    InitHolds(i, CHANNEL_ID);
    InitHolds(i, CLIENT_NONCE);
    InitHolds(i, TIMESTAMP);
    InitHolds(i, CAPABILITIES);
  }

  lemma InitGetsRest(i: ChannelInit)
    requires ValidInitV3(i)
    ensures var m := Collect(InitRecordsV3(i), Some(KnownInitV3()));
            && Get(m, AUTH_PROOF, Some(32)) == Ok(i.authProof)
            && Get(m, CIPHER_PREF, None) == Ok(i.cipherPref)
            && Get(m, CLIENT_EPH_PK, Some(32)) == Ok(i.clientEphPk)
            && Get(m, TAI64N, Some(12)) == Ok(i.tai64n)
            && (if PADDING in m then m[PADDING].value else []) == i.padding
  {
    hide Collect, InitRecordsV3, U64OfI64, U32, U64, SupportedPref;
    InitHolds(i, AUTH_PROOF);
    InitHolds(i, CIPHER_PREF);
    InitHolds(i, CLIENT_EPH_PK);
    InitHolds(i, TAI64N);
    InitHolds(i, PADDING);
  }

  /** Every ChannelInit the v3 encoder accepts is decoded to itself. */
  lemma InitRoundTripV3(i: ChannelInit)
    requires EncodeInitV3(i).Ok?
    ensures DecodeInitV3(EncodeInitV3(i).value) == Ok(i)
  {
    hide Parsed, Collect, BodyOf, FirstTooLarge, InitRecordsV3, KnownInitV3, Get;
    hide U64OfI64, I64OfU64, U32, U64, GetU32, GetU64, SupportedPref;
    InitRecordsAdmissible(i);
    RoundTrip(InitRecordsV3(i), Some(KnownInitV3()));
    FieldsReadBack(i.channelId, i.capabilities, i.timestamp);
    InitGets(i);
    InitGetsRest(i);
  }

  /** Whatever the decoder accepts is valid. */
  lemma DecodedInitIsValid(body: Bytes)
    ensures DecodeInitV3(body).Ok? ==> ValidInitV3(DecodeInitV3(body).value)
  {
    hide Parsed, I64OfU64;
  }

  // ---- ChannelInit, version 2 ------------------------------------------------------------------

  function InitRecordsV2(i: ChannelInit): seq<Tlv> {
    [Tlv(SESSION_ID, i.sessionId), Tlv(CHANNEL_ID, U32(i.channelId)), Tlv(CLIENT_NONCE, i.clientNonce),
     Tlv(TIMESTAMP, U64(U64OfI64(i.timestamp))), Tlv(CAPABILITIES, U64(i.capabilities)), Tlv(AUTH_PROOF, i.authProof)]
  }

  function EncodeInitV2(i: ChannelInit): Result<Bytes, string> {
    if |i.sessionId| != 16 || i.channelId == 0 || |i.clientNonce| != 32 then Err("invalid channel init")
    else Lift(Encoded(InitRecordsV2(i)))
  }

  function DecodeInitV2(body: Bytes): Result<ChannelInit, string> {
    var m :- Lift(Parsed(body, Some(KnownInitV2())));
    var sessionId :- Get(m, SESSION_ID, Some(16));
    var channelIdRaw :- Get(m, CHANNEL_ID, Some(4));
    var clientNonce :- Get(m, CLIENT_NONCE, Some(32));
    var timeRaw :- Get(m, TIMESTAMP, Some(8));
    var capsRaw :- Get(m, CAPABILITIES, Some(8));
    var authProof :- Get(m, AUTH_PROOF, None);
    if GetU32(channelIdRaw) == 0 then Err("channel id must be positive")
    else Ok(ChannelInit(sessionId, GetU32(channelIdRaw), clientNonce, I64OfU64(GetU64(timeRaw)), GetU64(capsRaw),
                        authProof, [], [], [], []))
  }

  /** No body of the v3 encoder is accepted by the v2 decoder: it holds a critical record that v2 does not know. */
  lemma V3BodyRefusedByV2(i: ChannelInit)
    requires EncodeInitV3(i).Ok?
    ensures DecodeInitV2(EncodeInitV3(i).value).Err?
  {
    var rs, known := InitRecordsV3(i), Some(KnownInitV2());
    assert rs[6].typ == CIPHER_PREF && CIPHER_PREF !in KnownInitV2();
    assert !Admissible(rs, known);
    ParseOf(rs, known);
  }

  /** No body of the v2 encoder is accepted by the v3 decoder: it lacks the cipher preference. */
  lemma V2BodyRefusedByV3(i: ChannelInit)
    requires EncodeInitV2(i).Ok?
    ensures DecodeInitV3(EncodeInitV2(i).value).Err?
  {
    hide Parsed, BodyOf, KnownInitV3, Admissible, Collect, InitRecordsV2, DecodeInitV3, FirstTooLarge;
    var rs, known := InitRecordsV2(i), Some(KnownInitV3());
    ParseOf(rs, known);
    NoPrefInV2(i);
    CollectNone(rs, known, CIPHER_PREF);
    PrefRequired(BodyOf(rs));
  }

  lemma NoPrefInV2(i: ChannelInit)
    ensures forall k :: 0 <= k < |InitRecordsV2(i)| ==> InitRecordsV2(i)[k].typ != CIPHER_PREF
  {
    hide U32, U64, U64OfI64;
  }

  lemma PrefRequired(body: Bytes)
    ensures var parsed := Parsed(body, Some(KnownInitV3()));
            parsed.Err? || CIPHER_PREF !in parsed.value ==> DecodeInitV3(body).Err?
  {
    hide Parsed, KnownInitV3, GetU32, GetU64, I64OfU64;
  }

  lemma ParseOf(rs: seq<Tlv>, known: Option<set<u16>>)
    requires Encodable(rs)
    ensures Parsed(BodyOf(rs), known).Ok? <==> Admissible(rs, known)
    ensures Admissible(rs, known) ==> Parsed(BodyOf(rs), known) == Ok(Collect(rs, known))
  {
    assert rs[0..] == rs;
    ParseList(rs, known, 0);
  }

  // ---- ChannelAccept, version 3 ----------------------------------------------------------------

  predicate ValidAcceptV3(a: ChannelAccept) {
    |a.serverNonce| == 32 && SupportedCipher(a.cipher) && |a.serverEphPk| == 32 && |a.serverProof| == 32
  }

  function AcceptRecordsV3(a: ChannelAccept): seq<Tlv> {
    AcceptFirst(a)
    + (if a.maxFrameSize > 0 then [Tlv(MAX_FRAME_SIZE, U32(a.maxFrameSize))] else [])
    + (if a.maxStreams > 0 then [Tlv(MAX_STREAMS, U32(a.maxStreams))] else [])
    + (if a.message != [] then [Tlv(MESSAGE, a.message)] else [])
    + AcceptLast(a)
  }

  function AcceptFirst(a: ChannelAccept): seq<Tlv> {
    [Tlv(CAPABILITIES, U64(a.capabilities)), Tlv(SERVER_NONCE, a.serverNonce),
      Tlv(SERVER_TIME, U64(U64OfI64(a.serverTime)))]
  }

  function AcceptLast(a: ChannelAccept): seq<Tlv> {
    [Tlv(CIPHER, [a.cipher]), Tlv(SERVER_EPH_PK, a.serverEphPk), Tlv(SERVER_PROOF, a.serverProof)]
  }

  function EncodeAcceptV3(a: ChannelAccept): Result<Bytes, string> {
    if !ValidAcceptV3(a) then Err("invalid channel accept") else Lift(Encoded(AcceptRecordsV3(a)))
  }

  function KnownAcceptV3(): set<u16> {
    {CAPABILITIES, SERVER_NONCE, SERVER_TIME, MAX_FRAME_SIZE, MAX_STREAMS, MESSAGE, PADDING, CIPHER, SERVER_EPH_PK,
      SERVER_PROOF}
  }

  /** A record that may be missing, of length 4 when it is there. */
  function GetOptionalU32(m: map<u16, Tlv>, typ: u16): Result<u32, string> {
    if typ !in m then Ok(0) else if |m[typ].value| != 4 then Err("invalid length") else Ok(GetU32(m[typ].value))
  }

  function DecodeAcceptV3(body: Bytes): Result<ChannelAccept, string> {
    var m :- Lift(Parsed(body, Some(KnownAcceptV3())));
    var caps :- Get(m, CAPABILITIES, Some(8));
    var nonce :- Get(m, SERVER_NONCE, Some(32));
    var time :- Get(m, SERVER_TIME, Some(8));
    var cipher :- Get(m, CIPHER, Some(1));
    if !SupportedCipher(cipher[0]) then Err("unsupported cipher in accept")
    else
      var pk :- Get(m, SERVER_EPH_PK, Some(32));
      var proof :- Get(m, SERVER_PROOF, Some(32));
      var maxFrame :- GetOptionalU32(m, MAX_FRAME_SIZE);
      var maxStreams :- GetOptionalU32(m, MAX_STREAMS);
      Ok(ChannelAccept(GetU64(caps), nonce, I64OfU64(GetU64(time)), maxFrame, maxStreams,
                       if MESSAGE in m then m[MESSAGE].value else [], cipher[0], pk, proof))
  }

  /**
   * Whatever the decoder accepts is valid, and holds no optional record of a wrong length: such a body is
   * refused, not read without it.
   */
  lemma DecodedAcceptIsValid(body: Bytes)
    requires DecodeAcceptV3(body).Ok?
    ensures ValidAcceptV3(DecodeAcceptV3(body).value)
    ensures Parsed(body, Some(KnownAcceptV3())).Ok?
    ensures var m := Parsed(body, Some(KnownAcceptV3())).value;
            && (MAX_FRAME_SIZE in m ==> |m[MAX_FRAME_SIZE].value| == 4)
            && (MAX_STREAMS in m ==> |m[MAX_STREAMS].value| == 4)
  {
    hide Parsed, KnownAcceptV3, I64OfU64, GetU64, GetU32;
  }

  /** Accept records stand in this order, whichever of the optional ones are there. */
  function AcceptRank(t: u16): nat {
    if t == CAPABILITIES then 0 else if t == SERVER_NONCE then 1 else if t == SERVER_TIME then 2
    else if t == MAX_FRAME_SIZE then 3 else if t == MAX_STREAMS then 4 else if t == MESSAGE then 5
    else if t == CIPHER then 6 else if t == SERVER_EPH_PK then 7 else 8
  }

  /** The records stand in order, with ranks from `lo` up to `hi`. */
  ghost predicate AcceptRanked(rs: seq<Tlv>, lo: nat, hi: nat) {
    && (forall k :: 0 <= k < |rs| ==> lo <= AcceptRank(rs[k].typ) < hi && rs[k].typ in KnownAcceptV3())
    && (forall k, l :: 0 <= k < l < |rs| ==> AcceptRank(rs[k].typ) < AcceptRank(rs[l].typ))
  }

  lemma RankedAppend(xs: seq<Tlv>, ys: seq<Tlv>, lo: nat, mid: nat, hi: nat)
    requires AcceptRanked(xs, lo, mid) && AcceptRanked(ys, mid, hi) && lo <= mid <= hi
    ensures AcceptRanked(xs + ys, lo, hi)
  {
    hide AcceptRank, KnownAcceptV3;
  }

  lemma RankedAdmissible(rs: seq<Tlv>, known: Option<set<u16>>)
    requires AcceptRanked(rs, 0, 9) && known == Some(KnownAcceptV3())
    ensures Admissible(rs, known) && forall k :: 0 <= k < |rs| ==> rs[k].typ in KnownAcceptV3()
  {
    hide AcceptRank, KnownAcceptV3;
  }

  lemma RankedOptional(a: Tlv)
    ensures a.typ == MAX_FRAME_SIZE ==> AcceptRanked([a], 3, 4)
    ensures a.typ == MAX_STREAMS ==> AcceptRanked([a], 4, 5)
    ensures a.typ == MESSAGE ==> AcceptRanked([a], 5, 6)
    ensures AcceptRanked([], 3, 4) && AcceptRanked([], 4, 5) && AcceptRanked([], 5, 6)
  {
  }

  lemma RankedEnds(a: ChannelAccept)
    ensures AcceptRanked(AcceptFirst(a), 0, 3) && AcceptRanked(AcceptLast(a), 6, 9)
  {
    hide U32, U64, U64OfI64;
  }

  lemma AcceptRecordsRanked(a: ChannelAccept)
    ensures AcceptRanked(AcceptRecordsV3(a), 0, 9)
  {
    hide U32, AcceptFirst, AcceptLast, AcceptRank, AcceptRanked, KnownAcceptV3;
    var first, last := AcceptFirst(a), AcceptLast(a);
    var frame := if a.maxFrameSize > 0 then [Tlv(MAX_FRAME_SIZE, U32(a.maxFrameSize))] else [];
    var streams := if a.maxStreams > 0 then [Tlv(MAX_STREAMS, U32(a.maxStreams))] else [];
    var text := if a.message != [] then [Tlv(MESSAGE, a.message)] else [];
    RankedEnds(a);
    RankedOptional(Tlv(MAX_FRAME_SIZE, U32(a.maxFrameSize)));
    RankedOptional(Tlv(MAX_STREAMS, U32(a.maxStreams)));
    RankedOptional(Tlv(MESSAGE, a.message));
    RankedAppend(first, frame, 0, 3, 4);
    RankedAppend(first + frame, streams, 0, 4, 5);
    RankedAppend(first + frame + streams, text, 0, 5, 6);
    RankedAppend(first + frame + streams + text, last, 0, 6, 9);
  }

  lemma AcceptRecordsAdmissible(a: ChannelAccept)
    ensures Admissible(AcceptRecordsV3(a), Some(KnownAcceptV3()))
    ensures forall k :: 0 <= k < |AcceptRecordsV3(a)| ==> AcceptRecordsV3(a)[k].typ in KnownAcceptV3()
  {
    hide U32, U64, U64OfI64, AcceptRank, AcceptRanked;
    var rs := AcceptRecordsV3(a);
    AcceptRecordsRanked(a);
    RankedAdmissible(rs, Some(KnownAcceptV3()));
  }

  function AcceptFieldV3(a: ChannelAccept): u16 -> Option<Bytes> {
    (t: u16) =>
      if t == CAPABILITIES then Some(U64(a.capabilities))
      else if t == SERVER_NONCE then Some(a.serverNonce)
      else if t == SERVER_TIME then Some(U64(U64OfI64(a.serverTime)))
      else if t == MAX_FRAME_SIZE && a.maxFrameSize > 0 then Some(U32(a.maxFrameSize))
      else if t == MAX_STREAMS && a.maxStreams > 0 then Some(U32(a.maxStreams))
      else if t == MESSAGE && a.message != [] then Some(a.message)
      else if t == CIPHER then Some([a.cipher])
      else if t == SERVER_EPH_PK then Some(a.serverEphPk)
      else if t == SERVER_PROOF then Some(a.serverProof)
      else None
  }

  lemma AcceptDescribed(a: ChannelAccept)
    ensures Describes(AcceptFieldV3(a), AcceptRecordsV3(a))
  {
    hide U32, U64, U64OfI64;
  }

  lemma AcceptHolds(a: ChannelAccept, typ: u16)
    requires typ in KnownAcceptV3()
    ensures Holds(Collect(AcceptRecordsV3(a), Some(KnownAcceptV3())), AcceptFieldV3(a), typ)
  {
    hide Collect, AcceptRecordsV3, AcceptFieldV3, Describes, KnownAcceptV3;
    AcceptDescribed(a);
    CollectByField(AcceptRecordsV3(a), Some(KnownAcceptV3()), AcceptFieldV3(a), typ);
  }

  lemma AcceptOptional(a: ChannelAccept)
    ensures var m := Collect(AcceptRecordsV3(a), Some(KnownAcceptV3()));
            && GetOptionalU32(m, MAX_FRAME_SIZE) == Ok(a.maxFrameSize)
            && GetOptionalU32(m, MAX_STREAMS) == Ok(a.maxStreams)
            && (if MESSAGE in m then m[MESSAGE].value else []) == a.message
  {
    hide Collect, AcceptRecordsV3, U32, U64, U64OfI64, GetU32;
    var m := Collect(AcceptRecordsV3(a), Some(KnownAcceptV3()));
    FieldsReadBack(a.maxFrameSize, 0, 0);
    FieldsReadBack(a.maxStreams, 0, 0);
    assert GetOptionalU32(m, MAX_FRAME_SIZE) == Ok(a.maxFrameSize) by { AcceptHolds(a, MAX_FRAME_SIZE); }
    assert GetOptionalU32(m, MAX_STREAMS) == Ok(a.maxStreams) by { AcceptHolds(a, MAX_STREAMS); }
    AcceptHolds(a, MESSAGE);
  }

  /** Every ChannelAccept the v3 encoder accepts is decoded to itself. */
  lemma AcceptRoundTripV3(a: ChannelAccept)
    requires EncodeAcceptV3(a).Ok?
    ensures DecodeAcceptV3(EncodeAcceptV3(a).value) == Ok(a)
  {
    hide Parsed, Collect, BodyOf, FirstTooLarge, AcceptRecordsV3, U64OfI64, I64OfU64, U32, U64, GetU32, GetU64,
         GetOptionalU32;
    AcceptRecordsAdmissible(a);
    RoundTrip(AcceptRecordsV3(a), Some(KnownAcceptV3()));
    FieldsReadBack(0, a.capabilities, a.serverTime);
    AcceptGets(a);
    AcceptOptional(a);
  }

  lemma AcceptGets(a: ChannelAccept)
    requires ValidAcceptV3(a)
    ensures var m := Collect(AcceptRecordsV3(a), Some(KnownAcceptV3()));
            && Get(m, CAPABILITIES, Some(8)) == Ok(U64(a.capabilities))
            && Get(m, SERVER_NONCE, Some(32)) == Ok(a.serverNonce)
            && Get(m, SERVER_TIME, Some(8)) == Ok(U64(U64OfI64(a.serverTime)))
            && Get(m, CIPHER, Some(1)) == Ok([a.cipher])
            && Get(m, SERVER_EPH_PK, Some(32)) == Ok(a.serverEphPk)
            && Get(m, SERVER_PROOF, Some(32)) == Ok(a.serverProof)
  {
    hide Collect, AcceptRecordsV3, U64OfI64, U64;
    var m := Collect(AcceptRecordsV3(a), Some(KnownAcceptV3()));
    assert Get(m, CAPABILITIES, Some(8)) == Ok(U64(a.capabilities)) by { AcceptHolds(a, CAPABILITIES); }
    assert Get(m, SERVER_NONCE, Some(32)) == Ok(a.serverNonce) by { AcceptHolds(a, SERVER_NONCE); }
    assert Get(m, SERVER_TIME, Some(8)) == Ok(U64(U64OfI64(a.serverTime))) by { AcceptHolds(a, SERVER_TIME); }
    assert Get(m, CIPHER, Some(1)) == Ok([a.cipher]) by { AcceptHolds(a, CIPHER); }
    assert Get(m, SERVER_EPH_PK, Some(32)) == Ok(a.serverEphPk) by { AcceptHolds(a, SERVER_EPH_PK); }
    assert Get(m, SERVER_PROOF, Some(32)) == Ok(a.serverProof) by { AcceptHolds(a, SERVER_PROOF); }
  }

  // ---- ChannelReject ---------------------------------------------------------------------------

  function RejectRecords(r: ChannelReject): seq<Tlv> {
    [Tlv(REJECT_CODE, Be(if r.code == 0 then REJECT_MALFORMED else r.code, 2))]
    + if r.message != [] then [Tlv(REJECT_REASON, r.message)] else []
  }

  function EncodeReject(r: ChannelReject): Result<Bytes, string> {
    Lift(Encoded(RejectRecords(r)))
  }

  function KnownReject(): set<u16> {
    {REJECT_CODE, REJECT_REASON, PADDING}
  }

  function DecodeReject(body: Bytes): Result<ChannelReject, string> {
    var m :- Lift(Parsed(body, Some(KnownReject())));
    var code :- Get(m, REJECT_CODE, Some(2));
    Ok(ChannelReject(Num(code) % 256, if REJECT_REASON in m then m[REJECT_REASON].value else []))
  }

  lemma RejectRecordsFacts(r: ChannelReject)
    ensures Admissible(RejectRecords(r), Some(KnownReject()))
    ensures var m := Collect(RejectRecords(r), Some(KnownReject()));
            && REJECT_CODE in m && m[REJECT_CODE].value == Be(if r.code == 0 then REJECT_MALFORMED else r.code, 2)
            && (REJECT_REASON in m <==> r.message != []) && (r.message != [] ==> m[REJECT_REASON].value == r.message)
  {
    hide Collect, Be;
    var rs, known := RejectRecords(r), Some(KnownReject());
    CollectAt(rs, known, 0);
    if r.message != [] {
      CollectAt(rs, known, 1);
    } else {
      CollectNone(rs, known, REJECT_REASON);
    }
  }

  /** A reject with a non-zero code is decoded to itself; a zero code is sent as "malformed frame". */
  lemma RejectRoundTrip(r: ChannelReject)
    requires EncodeReject(r).Ok?
    ensures DecodeReject(EncodeReject(r).value) == Ok(if r.code == 0 then r.(code := REJECT_MALFORMED) else r)
  {
    hide Parsed, Collect, BodyOf, FirstTooLarge, Be, Num, Pow256, Admissible, RejectRecords;
    RejectRecordsFacts(r);
    RoundTrip(RejectRecords(r), Some(KnownReject()));
    Widths();
    NumOfBe(if r.code == 0 then REJECT_MALFORMED else r.code, 2);
  }
}
