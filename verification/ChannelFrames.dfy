/** The framing envelope of the handshake and the messages inside it (internal/wire/protocol_v3.go, protocol_v2.go). */
module ChannelFrames {
  import opened Bytes
  import opened Outcomes
  import opened Channel

  const MAX_FRAME := 16 * 1024
  const FRAME_INIT: u8 := 1
  const FRAME_ACCEPT: u8 := 2
  const FRAME_REJECT: u8 := 3

  datatype Frame = Frame(typ: u8, version: u8, flags: u16, body: Bytes)

  /** writeV3Frame (version 3) and writeV2Frame (version 2). */
  function WriteFrame(version: u8, f: Frame): Result<Bytes, string> {
    if f.version != 0 && f.version != version then Err("frame version invalid")
    else if |f.body| > MAX_FRAME then Err("frame body too large")
    else Ok([f.typ, version] + Be(f.flags, 2) + Be(|f.body|, 4) + f.body)
  }

  /** readV3Frame and readV2Frame: the frame and the bytes after it. */
  function ReadFrame(version: u8, s: Bytes, maxSize: int): Result<(Frame, Bytes), string> {
    var max := if maxSize <= 0 then MAX_FRAME else maxSize;
    if |s| < 8 then Err("unexpected EOF")
    else if s[1] != version then Err("frame version invalid")
    else
      var n := Num(s[4..8]);
      if n > max then Err("frame body too large")
      else if |s| < 8 + n then Err("unexpected EOF")
      else
        Widths();
        Ok((Frame(s[0], s[1], Num(s[2..4]), s[8..8 + n]), s[8 + n..]))
  }

  /**
   * A written frame reads back equal and exactly its own bytes are consumed; a reader of another version
   * refuses it.
   */
  lemma FrameRoundTrip(version: u8, f: Frame, rest: Bytes, maxSize: int, other: u8)
    requires WriteFrame(version, f).Ok?
    requires maxSize <= 0 || |f.body| <= maxSize
    ensures ReadFrame(version, WriteFrame(version, f).value + rest, maxSize) == Ok((f.(version := version), rest))
    ensures other != version ==> ReadFrame(other, WriteFrame(version, f).value + rest, maxSize).Err?
  {
    hide Be, Num;
    var head := [f.typ, version] + Be(f.flags, 2) + Be(|f.body|, 4);
    var s := WriteFrame(version, f).value + rest;
    Widths();
    NumOfBe(f.flags, 2);
    NumOfBe(|f.body|, 4);
    assert s == head + (f.body + rest);
    assert s[..8] == head;
    assert s[2..4] == head[2..4] == Be(f.flags, 2) && s[4..8] == head[4..8] == Be(|f.body|, 4);
    assert s[8..] == f.body + rest;
    assert s[8..8 + |f.body|] == f.body && s[8 + |f.body|..] == rest;
  }

  /**
   * What is read is determined by the bytes: a frame is read exactly from its own header and body, of the
   * reader's version and within its limit, followed by what is left; anything else is refused.
   */
  lemma FrameReadIff(version: u8, s: Bytes, maxSize: int, f: Frame, rest: Bytes)
    ensures ReadFrame(version, s, maxSize) == Ok((f, rest)) <==>
            && f.version == version && |f.body| <= (if maxSize <= 0 then MAX_FRAME else maxSize)
            && |f.body| < 0x1_0000_0000
            && s == [f.typ, f.version] + Be(f.flags, 2) + Be(|f.body|, 4) + f.body + rest
  {
    hide Be, Num, Pow256;
    Widths();
    if ReadFrame(version, s, maxSize) == Ok((f, rest)) {
      BeOfNum(s[2..4]);
      BeOfNum(s[4..8]);
      assert s == s[..2] + s[2..4] + s[4..8] + s[8..8 + |f.body|] + s[8 + |f.body|..];
    }
    if |f.body| < 0x1_0000_0000 && s == [f.typ, f.version] + Be(f.flags, 2) + Be(|f.body|, 4) + f.body + rest {
      FrameParts([f.typ, f.version], Be(f.flags, 2), Be(|f.body|, 4), f.body, rest);
      NumOfBe(f.flags, 2);
      NumOfBe(|f.body|, 4);
    }
  }

  lemma FrameParts(a: Bytes, b: Bytes, c: Bytes, body: Bytes, rest: Bytes)
    requires |a| == 2 && |b| == 2 && |c| == 4
    ensures var s := a + b + c + body + rest;
            && s[0] == a[0] && s[1] == a[1] && s[2..4] == b && s[4..8] == c
            && s[8..8 + |body|] == body && s[8 + |body|..] == rest
  {
    var s := a + b + c + body + rest;
    assert s == a + b + c + (body + rest);
    assert s[8..] == body + rest;
    SliceLeft(a + b + c, body + rest, 2, 4);
    SliceLeft(a + b + c, body + rest, 4, 8);
    SliceLeft(body, rest, 0, |body|);
  }

  // ---- the messages ----------------------------------------------------------------------------

  function WriteInitV3(i: ChannelInit): Result<Bytes, string> {
    var body :- EncodeInitV3(i);
    WriteFrame(3, Frame(FRAME_INIT, 3, 0, body))
  }

  function ReadInitV3(s: Bytes, maxSize: int): Result<(ChannelInit, Bytes), string> {
    var (f, rest) :- ReadFrame(3, s, maxSize);
    if f.typ != FRAME_INIT then Err("unexpected frame type")
    else
      var i :- DecodeInitV3(f.body);
      Ok((i, rest))
  }

  function WriteAcceptV3(a: ChannelAccept): Result<Bytes, string> {
    var body :- EncodeAcceptV3(a);
    WriteFrame(3, Frame(FRAME_ACCEPT, 3, 0, body))
  }

  function WriteRejectV3(r: ChannelReject): Result<Bytes, string> {
    var body :- EncodeReject(r);
    WriteFrame(3, Frame(FRAME_REJECT, 3, 0, body))
  }

  datatype Answer = Accepted(accept: ChannelAccept) | Refused(reject: ChannelReject)

  function ReadAnswerV3(s: Bytes, maxSize: int): Result<(Answer, Bytes), string> {
    var (f, rest) :- ReadFrame(3, s, maxSize);
    if f.typ == FRAME_ACCEPT then
      var a :- DecodeAcceptV3(f.body);
      Ok((Accepted(a), rest))
    else if f.typ == FRAME_REJECT then
      var r :- DecodeReject(f.body);
      Ok((Refused(r), rest))
    else Err("unexpected frame type")
  }

  /** The type byte decides what a message is read as; a message of any other type is refused. */
  lemma TypeDecides(s: Bytes, maxSize: int)
    ensures ReadInitV3(s, maxSize).Ok? ==> |s| >= 8 && s[0] == 1 && s[1] == 3
    ensures var answer := ReadAnswerV3(s, maxSize);
            answer.Ok? ==> |s| >= 8 && s[1] == 3 && s[0] == if answer.value.0.Accepted? then 2 else 3
  {
    hide DecodeInitV3, DecodeAcceptV3, DecodeReject, Num;
  }

  /** Every ChannelInit that the writer accepts is read back equal, consuming exactly the bytes written. */
  lemma InitMessage(i: ChannelInit, rest: Bytes)
    requires WriteInitV3(i).Ok?
    ensures ReadInitV3(WriteInitV3(i).value + rest, MAX_FRAME) == Ok((i, rest))
  {
    hide WriteFrame, ReadFrame, EncodeInitV3, DecodeInitV3;
    var body := EncodeInitV3(i).value;
    BodyFits(3, Frame(FRAME_INIT, 3, 0, body));
    FrameRoundTrip(3, Frame(FRAME_INIT, 3, 0, body), rest, MAX_FRAME, 2);
    InitRoundTripV3(i);
  }

  /** Every ChannelAccept that the writer accepts is read back equal, consuming exactly the bytes written. */
  lemma AcceptMessage(a: ChannelAccept, rest: Bytes)
    requires WriteAcceptV3(a).Ok?
    ensures ReadAnswerV3(WriteAcceptV3(a).value + rest, MAX_FRAME) == Ok((Accepted(a), rest))
  {
    hide WriteFrame, ReadFrame, EncodeAcceptV3, DecodeAcceptV3;
    var body := EncodeAcceptV3(a).value;
    BodyFits(3, Frame(FRAME_ACCEPT, 3, 0, body));
    FrameRoundTrip(3, Frame(FRAME_ACCEPT, 3, 0, body), rest, MAX_FRAME, 2);
    AcceptRoundTripV3(a);
  }

  /** Every ChannelReject with a non-zero code that the writer accepts is read back equal. */
  lemma RejectMessage(r: ChannelReject, rest: Bytes)
    requires WriteRejectV3(r).Ok? && r.code != 0
    ensures ReadAnswerV3(WriteRejectV3(r).value + rest, MAX_FRAME) == Ok((Refused(r), rest))
  {
    hide WriteFrame, ReadFrame, EncodeReject, DecodeReject;
    var body := EncodeReject(r).value;
    BodyFits(3, Frame(FRAME_REJECT, 3, 0, body));
    FrameRoundTrip(3, Frame(FRAME_REJECT, 3, 0, body), rest, MAX_FRAME, 2);
    RejectRoundTrip(r);
  }

  lemma BodyFits(version: u8, f: Frame)
    requires WriteFrame(version, f).Ok?
    ensures |f.body| <= MAX_FRAME
  {
  }
}
