/** Whole runs of the reassembler: fragments of one packet among any other traffic. */
module Reassembly {
  import opened Bytes
  import opened Outcomes
  import opened Datagram

  datatype Arrival = Arrival(frame: Frame, now: int)

  /** The queue after a run that starts with `q0`. */
  ghost function QueueAfter(q0: Queue, maxQueued: nat, ttl: int, evs: seq<Arrival>): Queue {
    if evs == [] then q0
    else
      var e := evs[|evs| - 1];
      AddTo(QueueAfter(q0, maxQueued, ttl, evs[..|evs| - 1]), maxQueued, ttl, e.frame, e.now).0
  }

  /** What the last call of a run returns. */
  ghost function LastOutcome(q0: Queue, maxQueued: nat, ttl: int, evs: seq<Arrival>): Outcome
    requires evs != []
  {
    var e := evs[|evs| - 1];
    AddTo(QueueAfter(q0, maxQueued, ttl, evs[..|evs| - 1]), maxQueued, ttl, e.frame, e.now).1
  }

  // ---- every reachable queue --------------------------------------------------------------------

  lemma AddKeepsSound(q: Queue, maxQueued: nat, ttl: int, f: Frame, now: int)
    requires Sound(q) && |q| <= maxQueued
    ensures Sound(AddTo(q, maxQueued, ttl, f, now).0) && |AddTo(q, maxQueued, ttl, f, now).0| <= maxQueued
  {
    hide Stitched, Unexpired;
    var live := Unexpired(q, now, ttl);
    UnexpiredSmaller(q, now, ttl);
    UnexpiredSound(q, now, ttl);
    if f.fragTotal > 1 && (KeyOf(f) in live || |live| < maxQueued) {
      AddOneSound(live, f, if KeyOf(f) in live then live[KeyOf(f)] else Pending(map[], f.fragTotal, f, now));
    }
  }

  lemma UnexpiredSound(q: Queue, now: int, ttl: int)
    requires Sound(q)
    ensures Sound(Unexpired(q, now, ttl))
  {
  }

  lemma AddOneSound(live: Queue, f: Frame, e: Pending)
    requires Sound(live) && f.fragTotal > 1 && KeyOf(e.frame) == KeyOf(f)
    requires if KeyOf(f) in live then e == live[KeyOf(f)] else e.fragments == map[] && e.total == f.fragTotal
    ensures var e' := e.(fragments := e.fragments[f.fragId := f.payload]);
            if |e'.fragments| == e'.total then Sound(live - {KeyOf(f)}) else Sound(live[KeyOf(f) := e'])
  {
  }

  /**
   * Whatever arrives, each queued entry holds at least one fragment and fewer than its total, and the queue
   * keeps its bound.
   */
  lemma {:induction false} ReachableSound(maxQueued: nat, ttl: int, evs: seq<Arrival>)
    ensures Sound(QueueAfter(map[], maxQueued, ttl, evs)) && |QueueAfter(map[], maxQueued, ttl, evs)| <= maxQueued
  {
    if evs != [] {
      ReachableSound(maxQueued, ttl, evs[..|evs| - 1]);
      var e := evs[|evs| - 1];
      AddKeepsSound(QueueAfter(map[], maxQueued, ttl, evs[..|evs| - 1]), maxQueued, ttl, e.frame, e.now);
    }
  }

  // ---- one packet -------------------------------------------------------------------------------

  /** A packet that is split into two to 255 pieces. */
  datatype Packet = Packet(frame: Frame, max: nat) {
    ghost predicate Valid() {
      0 < max < |frame.payload| && |frame.payload| <= 255 * max && |frame.payload| <= 65535
    }

    ghost function Pieces(): seq<Frame> {
      Fragments(frame, max)
    }

    /** What reassembly has to give back. */
    ghost function Whole(): Frame {
      frame.(fragTotal := 1, fragId := 0, payloadLen := |frame.payload| % 0x1_0000)
    }
  }

  ghost predicate IsPieceOf(p: Packet, f: Frame) {
    SamePacket(f, p.frame) && f.fragTotal > 1
  }

  lemma PieceFacts(p: Packet, i: nat)
    requires p.Valid() && i < |p.Pieces()|
    ensures 2 <= |p.Pieces()| <= 255
    ensures var f := p.Pieces()[i];
            && f.fragTotal == |p.Pieces()| && f.fragId == i && KeyOf(f) == KeyOf(p.frame)
            && f.(fragTotal := 1, fragId := 0, payload := p.frame.payload,
               payloadLen := |p.frame.payload| % 0x1_0000) == p.Whole()
  {
    FragCountFacts(|p.frame.payload|, p.max);
    assert p.Pieces()[i] == Piece(p.frame, p.max, i);
  }

  /** The fragment numbers below n. */
  ghost function Ids(n: nat): (s: set<nat>)
    ensures |s| == n && forall i :: i in s <==> 0 <= i < n
  {
    if n == 0 then {} else Ids(n - 1) + {n - 1}
  }

  /** The entry holds exactly the pieces with these numbers. */
  ghost predicate Collected(e: Pending, p: Packet, got: set<nat>) {
    var fs := p.Pieces();
    && e.total == |fs| && e.frame in fs && got <= Ids(|fs|)
    && e.fragments.Keys == got && forall i <- got :: i in e.fragments && e.fragments[i] == fs[i].payload
  }

  /** How far a packet has come: the pieces since it was last complete, and when the first of them arrived. */
  datatype Progress = Progress(got: set<nat>, since: int)

  /** The queue holds, for the packet, exactly this progress. */
  ghost predicate Tracks(q: Queue, p: Packet, pr: Progress) {
    var key := KeyOf(p.frame);
    && pr.got < Ids(|p.Pieces()|)
    && if pr.got == {} then key !in q else key in q && Collected(q[key], p, pr.got) && q[key].createdAt == pr.since
  }

  /** One more piece. */
  ghost function With(p: Packet, pr: Progress, i: nat, now: int): Progress {
    if pr.got + {i} == Ids(|p.Pieces()|) then Progress({}, now)
    else Progress(pr.got + {i}, if pr.got == {} then now else pr.since)
  }

  lemma {:induction false} StitchPieces(p: Packet, fragments: map<u8, Bytes>, n: nat)
    requires p.Valid() && n <= |p.Pieces()| <= 255
    requires forall i :: 0 <= i < n ==> i in fragments && fragments[i] == p.Pieces()[i].payload
    ensures Stitch(fragments, n) == Concat(Payloads(p.Pieces())[..n])
  {
    hide Fragments;
    var ps := Payloads(p.Pieces());
    if n > 0 {
      StitchPieces(p, fragments, n - 1);
      assert ps[..n] == ps[..n - 1] + [ps[n - 1]];
      ConcatSnoc(ps[..n - 1], ps[n - 1]);
    }
  }

  /** An entry with all its pieces stitches to the packet. */
  lemma StitchWhole(p: Packet, e: Pending)
    requires p.Valid() && 2 <= |p.Pieces()| <= 255
    requires e.total == |p.Pieces()| && e.frame in p.Pieces()
    requires forall i :: 0 <= i < |p.Pieces()| ==> i in e.fragments && e.fragments[i] == p.Pieces()[i].payload
    ensures Stitched(e) == p.Whole()
  {
    var fs := p.Pieces();
    StitchPieces(p, e.fragments, |fs|);
    assert Payloads(fs)[..|fs|] == Payloads(fs);
    FragmentsHoldPayloadIff(p.frame, p.max);
    var i :| 0 <= i < |fs| && fs[i] == e.frame;
    PieceFacts(p, i);
  }

  /** What a cleanup at this time leaves of the progress. */
  ghost function Aged(pr: Progress, now: int, ttl: int): Progress {
    if pr.got != {} && now - pr.since > ttl then Progress({}, pr.since) else pr
  }

  /** A call at this time that starts a new entry finds room for it. */
  ghost predicate Room(q: Queue, maxQueued: nat, ttl: int, now: int) {
    |Unexpired(q, now, ttl)| < maxQueued
  }

  /** The progress after one more call: only one with a fragment cleans up, and a piece without an entry needs room. */
  ghost function Next(p: Packet, pr: Progress, e: Arrival, ttl: int, room: bool): Progress {
    if e.frame.fragTotal <= 1 then pr
    else
      var live := Aged(pr, e.now, ttl);
      if !IsPieceOf(p, e.frame) || (live.got == {} && !room) then live else With(p, live, e.frame.fragId, e.now)
  }

  /** What the call for a piece of the packet returns. */
  ghost function Due(p: Packet, pr: Progress, e: Arrival, ttl: int, room: bool): Outcome {
    var live := Aged(pr, e.now, ttl);
    if live.got == {} && !room then Refused
    else if live.got + {e.frame.fragId as nat} == Ids(|p.Pieces()|) then Complete(p.Whole())
    else Waiting
  }

  /** Cleaning up takes the packet's entry exactly when it has expired. */
  lemma CleanupStep(q: Queue, ttl: int, p: Packet, pr: Progress, now: int)
    requires Tracks(q, p, pr)
    ensures Tracks(Unexpired(q, now, ttl), p, Aged(pr, now, ttl))
  {
    hide Collected, Fragments;
  }

  /**
   * A piece of the packet: refused without an entry or room for one, or else complete exactly when it is
   * the last one missing.
   */
  lemma OwnStep(q: Queue, maxQueued: nat, ttl: int, p: Packet, pr: Progress, i: nat, now: int)
    requires p.Valid() && i < |p.Pieces()| && Tracks(q, p, pr)
    ensures var e, room := Arrival(p.Pieces()[i], now), Room(q, maxQueued, ttl, now);
            var (q', r) := AddTo(q, maxQueued, ttl, e.frame, now);
            r == Due(p, pr, e, ttl, room) && Tracks(q', p, Next(p, pr, e, ttl, room))
  {
    hide Fragments, Stitched, Unexpired, Collected, Aged, With, AddTo, Ids;
    CleanupStep(q, ttl, p, pr, now);
    PieceFacts(p, i);
    AddPiece(q, maxQueued, ttl, p, Aged(pr, now, ttl), i, now);
  }

  /** The same once the queue is cleaned up. */
  lemma AddPiece(q: Queue, maxQueued: nat, ttl: int, p: Packet, pr: Progress, i: nat, now: int)
    requires p.Valid() && i < |p.Pieces()| && Tracks(Unexpired(q, now, ttl), p, pr)
    ensures var live, (q', r) := Unexpired(q, now, ttl), AddTo(q, maxQueued, ttl, p.Pieces()[i], now);
            if pr.got == {} && |live| >= maxQueued then r == Refused && q' == live
            else
              && r == (if pr.got + {i} == Ids(|p.Pieces()|) then Complete(p.Whole()) else Waiting)
              && Tracks(q', p, With(p, pr, i, now))
  {
    hide Fragments, Stitched, Unexpired, Collected, AddTo, Ids, With;
    var fs, key, live := p.Pieces(), KeyOf(p.frame), Unexpired(q, now, ttl);
    PieceFacts(p, i);
    AddUnfolded(q, maxQueued, ttl, fs[i], now);
    if key in live || |live| < maxQueued {
      var e := if key in live then live[key] else Pending(map[], fs[i].fragTotal, fs[i], now);
      if pr.got == {} {
        CollectedNothing(p, e);
      }
      CollectOne(p, e, pr.got, i);
      StoreTracks(live, p, pr, i, now, e.(fragments := e.fragments[i := fs[i].payload]));
    }
  }

  /** What AddTo does with a fragment, in terms of the cleaned-up queue. */
  lemma AddUnfolded(q: Queue, maxQueued: nat, ttl: int, f: Frame, now: int)
    requires f.fragTotal > 1
    ensures var live, k := Unexpired(q, now, ttl), KeyOf(f);
            var e := if k in live then live[k] else Pending(map[], f.fragTotal, f, now);
            var e' := e.(fragments := e.fragments[f.fragId := f.payload]);
            AddTo(q, maxQueued, ttl, f, now) ==
            if k !in live && |live| >= maxQueued then (live, Refused)
            else if |e'.fragments| == e'.total then (live - {k}, Complete(Stitched(e'))) else (live[k := e'], Waiting)
  {
    hide Stitched, Unexpired;
  }

  lemma StoreTracks(live: Queue, p: Packet, pr: Progress, i: nat, now: int, e: Pending)
    requires pr.got < Ids(|p.Pieces()|) && i < |p.Pieces()| && Collected(e, p, pr.got + {i})
    requires e.createdAt == if pr.got == {} then now else pr.since
    ensures pr.got + {i} == Ids(|p.Pieces()|) ==> Tracks(live - {KeyOf(p.frame)}, p, With(p, pr, i, now))
    ensures pr.got + {i} != Ids(|p.Pieces()|) ==> Tracks(live[KeyOf(p.frame) := e], p, With(p, pr, i, now))
  {
    hide Fragments;
  }

  lemma CollectedNothing(p: Packet, e: Pending)
    requires e.total == |p.Pieces()| && e.frame in p.Pieces() && e.fragments == map[]
    ensures Collected(e, p, {})
  {
  }

  lemma CollectOne(p: Packet, e0: Pending, got: set<nat>, i: nat)
    requires p.Valid() && i < |p.Pieces()| <= 255 && 2 <= |p.Pieces()| && Collected(e0, p, got)
    ensures var e := e0.(fragments := e0.fragments[i := p.Pieces()[i].payload]);
            && Collected(e, p, got + {i})
            && (|e.fragments| == e.total <==> got + {i} == Ids(|p.Pieces()|))
            && (got + {i} == Ids(|p.Pieces()|) ==> Stitched(e) == p.Whole())
  {
    hide Fragments, Stitched;
    var fs := p.Pieces();
    var e := e0.(fragments := e0.fragments[i := fs[i].payload]);
    assert e.fragments.Keys == got + {i};
    assert |e.fragments| == |e.fragments.Keys|;
    SubsetSize(got + {i}, Ids(|fs|));
    if got + {i} == Ids(|fs|) {
      forall j | 0 <= j < |fs|
        ensures j in e.fragments && e.fragments[j] == fs[j].payload
      {
        assert j in got + {i};
      }
      StitchWhole(p, e);
    }
  }

  /** Anything else that arrives leaves the packet's entry alone, unless it cleans up an entry that has expired. */
  lemma OtherStep(q: Queue, maxQueued: nat, ttl: int, p: Packet, pr: Progress, f: Frame, now: int)
    requires Tracks(q, p, pr) && !IsPieceOf(p, f)
    ensures Tracks(AddTo(q, maxQueued, ttl, f, now).0, p, if f.fragTotal <= 1 then pr else Aged(pr, now, ttl))
  {
    hide Stitched, Collected, Fragments, Aged, Unexpired;
    KeyIff(f, p.frame);
    hide KeyOf, SamePacket;
    CleanupStep(q, ttl, p, pr, now);
  }

  /** One call: the queue goes on tracking the packet, and the outcome for a piece of it is the one that is due. */
  lemma Step(p: Packet, q: Queue, pr: Progress, maxQueued: nat, ttl: int, e: Arrival)
    requires p.Valid() && Tracks(q, p, pr) && (IsPieceOf(p, e.frame) ==> e.frame in p.Pieces())
    ensures var room, (q', r) := Room(q, maxQueued, ttl, e.now), AddTo(q, maxQueued, ttl, e.frame, e.now);
            && Tracks(q', p, Next(p, pr, e, ttl, room))
            && (IsPieceOf(p, e.frame) ==> r == Due(p, pr, e, ttl, room))
  {
    hide AddTo, Tracks, Room, Fragments, Aged, With, Due;
    if IsPieceOf(p, e.frame) {
      var i :| 0 <= i < |p.Pieces()| && p.Pieces()[i] == e.frame;
      OwnStep(q, maxQueued, ttl, p, pr, i, e.now);
      assert e == Arrival(p.Pieces()[i], e.now);
    } else {
      OtherStep(q, maxQueued, ttl, p, pr, e.frame, e.now);
    }
  }

  // ---- whole runs -------------------------------------------------------------------------------

  /** Under the packet's key only its own pieces arrive. */
  ghost predicate OwnKey(p: Packet, evs: seq<Arrival>) {
    forall j :: 0 <= j < |evs| && IsPieceOf(p, evs[j].frame) ==> evs[j].frame in p.Pieces()
  }

  /** The packet's progress after a run that starts with the queue `q0` and finds it at `pr0`. */
  ghost function ProgressAfter(p: Packet, q0: Queue, pr0: Progress, maxQueued: nat, ttl: int, evs: seq<Arrival>)
    : Progress
  {
    if evs == [] then pr0
    else
      var before, e := evs[..|evs| - 1], evs[|evs| - 1];
      Next(p, ProgressAfter(p, q0, pr0, maxQueued, ttl, before), e, ttl,
           Room(QueueAfter(q0, maxQueued, ttl, before), maxQueued, ttl, e.now))
  }

  /** Over any run, from any queue, whatever expires or is refused, the queue holds exactly the packet's progress. */
  lemma {:induction false} RunTracks(p: Packet, q0: Queue, pr0: Progress, maxQueued: nat, ttl: int, evs: seq<Arrival>)
    requires p.Valid() && OwnKey(p, evs) && Tracks(q0, p, pr0)
    ensures Tracks(QueueAfter(q0, maxQueued, ttl, evs), p, ProgressAfter(p, q0, pr0, maxQueued, ttl, evs))
  {
    hide Tracks, AddTo, Next, Room, IsPieceOf;
    if evs != [] {
      var before := evs[..|evs| - 1];
      RunTracks(p, q0, pr0, maxQueued, ttl, before);
      Step(p, QueueAfter(q0, maxQueued, ttl, before), ProgressAfter(p, q0, pr0, maxQueued, ttl, before), maxQueued, ttl,
           evs[|evs| - 1]);
    }
  }

  /**
   * One packet among any other traffic, its pieces in any order and any number of times, with any clock:
   * the call that brings the last piece missing from a live entry returns the original frame; one that
   * finds neither an entry nor room is refused; every other one waits.
   */
  lemma ReassembledExactlyWhenComplete(p: Packet, q0: Queue, pr0: Progress, maxQueued: nat, ttl: int, evs: seq<Arrival>)
    requires p.Valid() && OwnKey(p, evs) && Tracks(q0, p, pr0) && evs != [] && IsPieceOf(p, evs[|evs| - 1].frame)
    ensures var before, e := evs[..|evs| - 1], evs[|evs| - 1];
            LastOutcome(q0, maxQueued, ttl, evs) ==
            Due(p, ProgressAfter(p, q0, pr0, maxQueued, ttl, before), e, ttl,
                Room(QueueAfter(q0, maxQueued, ttl, before), maxQueued, ttl, e.now))
  {
    hide Tracks, AddTo, Next, Room, Due, IsPieceOf, ProgressAfter;
    var before := evs[..|evs| - 1];
    RunTracks(p, q0, pr0, maxQueued, ttl, before);
    Step(p, QueueAfter(q0, maxQueued, ttl, before), ProgressAfter(p, q0, pr0, maxQueued, ttl, before), maxQueued, ttl,
         evs[|evs| - 1]);
  }

  // ---- when nothing expires and nothing is refused ------------------------------------------------

  /** The progress of a packet that never expires and always finds room. */
  ghost function PlainProgress(p: Packet, pr0: Progress, evs: seq<Arrival>): Progress {
    if evs == [] then pr0
    else
      var pr, e := PlainProgress(p, pr0, evs[..|evs| - 1]), evs[|evs| - 1];
      if IsPieceOf(p, e.frame) then With(p, pr, e.frame.fragId, e.now) else pr
  }

  /** At the j-th call the packet's entry has not expired, and its first piece finds room. */
  ghost predicate Kept(p: Packet, q0: Queue, pr0: Progress, maxQueued: nat, ttl: int, evs: seq<Arrival>, j: nat)
    requires j < |evs|
  {
    var pr, now := PlainProgress(p, pr0, evs[..j]), evs[j].now;
    && (pr.got != {} ==> now - pr.since <= ttl)
    && (IsPieceOf(p, evs[j].frame) && pr.got == {} ==>
          Room(QueueAfter(q0, maxQueued, ttl, evs[..j]), maxQueued, ttl, now))
  }

  lemma {:induction false} KeptIsPlain(p: Packet, q0: Queue, pr0: Progress, maxQueued: nat, ttl: int, evs: seq<Arrival>)
    requires forall j :: 0 <= j < |evs| ==> Kept(p, q0, pr0, maxQueued, ttl, evs, j)
    ensures ProgressAfter(p, q0, pr0, maxQueued, ttl, evs) == PlainProgress(p, pr0, evs)
  {
    hide QueueAfter, Room, With;
    if evs != [] {
      var n := |evs| - 1;
      forall j | 0 <= j < n
        ensures Kept(p, q0, pr0, maxQueued, ttl, evs[..n], j)
      {
        KeptPrefix(p, q0, pr0, maxQueued, ttl, evs, n, j);
      }
      KeptIsPlain(p, q0, pr0, maxQueued, ttl, evs[..n]);
      assert Kept(p, q0, pr0, maxQueued, ttl, evs, n);
    }
  }

  lemma KeptPrefix(p: Packet, q0: Queue, pr0: Progress, maxQueued: nat, ttl: int, evs: seq<Arrival>, n: nat, j: nat)
    requires j < n <= |evs| && Kept(p, q0, pr0, maxQueued, ttl, evs, j)
    ensures Kept(p, q0, pr0, maxQueued, ttl, evs[..n], j)
  {
    hide QueueAfter, PlainProgress;
    assert evs[..n][..j] == evs[..j];
  }

  /** The clock does not go back. */
  ghost predicate Monotone(evs: seq<Arrival>) {
    forall i, j :: 0 <= i <= j < |evs| ==> evs[i].now <= evs[j].now
  }

  /**
   * The pieces of the packet come within one ttl of the first of them since it was last complete, and
   * that first one finds room. Nothing is asked of the other traffic, nor of how long the run is.
   */
  ghost predicate Undisturbed(p: Packet, q0: Queue, pr0: Progress, maxQueued: nat, ttl: int, evs: seq<Arrival>) {
    && Tracks(q0, p, pr0) && OwnKey(p, evs) && Monotone(evs)
    && forall j :: 0 <= j < |evs| && IsPieceOf(p, evs[j].frame) ==> Kept(p, q0, pr0, maxQueued, ttl, evs, j)
  }

  /** Between two pieces the clock is not past the second, so nothing else that arrives expires the packet either. */
  lemma {:induction false} KeptBetween(p: Packet, q0: Queue, pr0: Progress, maxQueued: nat, ttl: int,
    evs: seq<Arrival>, j: nat)
    requires Undisturbed(p, q0, pr0, maxQueued, ttl, evs) && j < |evs| && IsPieceOf(p, evs[|evs| - 1].frame)
    ensures Kept(p, q0, pr0, maxQueued, ttl, evs, j)
    decreases |evs| - j
  {
    hide Tracks, QueueAfter, Room, IsPieceOf, OwnKey;
    if !IsPieceOf(p, evs[j].frame) {
      KeptBetween(p, q0, pr0, maxQueued, ttl, evs, j + 1);
      assert evs[..j + 1][..j] == evs[..j];
      assert evs[j].now <= evs[j + 1].now;
    }
  }

  /**
   * Then the call that brings the last missing piece returns the original frame, and every other call for a
   * piece waits.
   */
  lemma UndisturbedOutcome(p: Packet, q0: Queue, pr0: Progress, maxQueued: nat, ttl: int, evs: seq<Arrival>)
    requires p.Valid() && evs != [] && IsPieceOf(p, evs[|evs| - 1].frame)
    requires Undisturbed(p, q0, pr0, maxQueued, ttl, evs)
    ensures LastOutcome(q0, maxQueued, ttl, evs) ==
            if PlainProgress(p, pr0, evs[..|evs| - 1]).got + {evs[|evs| - 1].frame.fragId as nat} == Ids(|p.Pieces()|)
            then Complete(p.Whole()) else Waiting
  {
    hide Tracks, QueueAfter, LastOutcome, ProgressAfter, PlainProgress, IsPieceOf, Room;
    var n := |evs| - 1;
    forall j | 0 <= j < |evs|
      ensures Kept(p, q0, pr0, maxQueued, ttl, evs, j)
    {
      KeptBetween(p, q0, pr0, maxQueued, ttl, evs, j);
    }
    forall j | 0 <= j < n
      ensures Kept(p, q0, pr0, maxQueued, ttl, evs[..n], j)
    {
      KeptPrefix(p, q0, pr0, maxQueued, ttl, evs, n, j);
    }
    KeptIsPlain(p, q0, pr0, maxQueued, ttl, evs[..n]);
    ReassembledExactlyWhenComplete(p, q0, pr0, maxQueued, ttl, evs);
  }

  // ---- room -------------------------------------------------------------------------------------

  /** The keys under which something was queued by a call that is not older than one ttl at time `now`. */
  ghost function RecentKeys(evs: seq<Arrival>, now: int, ttl: int): (s: set<nat>)
    ensures forall j :: 0 <= j < |evs| && evs[j].frame.fragTotal > 1 && now - evs[j].now <= ttl ==>
            KeyOf(evs[j].frame) in s
  {
    if evs == [] then {}
    else
      var e := evs[|evs| - 1];
      RecentKeys(evs[..|evs| - 1], now, ttl) + if e.frame.fragTotal > 1 && now - e.now <= ttl then {KeyOf(e.frame)}
        else {}
  }

  /** Every entry was created by some call of the run, under its own key. */
  ghost predicate FromRun(q: Queue, evs: seq<Arrival>) {
    forall k <- q :: exists j :: 0 <= j < |evs| && CreatedBy(q, k, evs[j])
  }

  ghost predicate CreatedBy(q: Queue, k: nat, e: Arrival)
    requires k in q
  {
    e.frame.fragTotal > 1 && KeyOf(e.frame) == k && q[k].createdAt == e.now
  }

  lemma {:induction false} AllFromRun(maxQueued: nat, ttl: int, evs: seq<Arrival>)
    ensures FromRun(QueueAfter(map[], maxQueued, ttl, evs), evs)
  {
    hide AddTo;
    if evs != [] {
      var n := |evs| - 1;
      var q, q' := QueueAfter(map[], maxQueued, ttl, evs[..n]), QueueAfter(map[], maxQueued, ttl, evs);
      AllFromRun(maxQueued, ttl, evs[..n]);
      forall k | k in q'
        ensures exists j :: 0 <= j < |evs| && CreatedBy(q', k, evs[j])
      {
        EntryOrigin(q, maxQueued, ttl, evs[n], k);
        if !CreatedBy(q', k, evs[n]) {
          var j :| 0 <= j < n && CreatedBy(q, k, evs[..n][j]);
          assert CreatedBy(q', k, evs[j]);
        }
      }
    }
  }

  lemma EntryOrigin(q: Queue, maxQueued: nat, ttl: int, e: Arrival, k: nat)
    requires k in AddTo(q, maxQueued, ttl, e.frame, e.now).0
    ensures var q' := AddTo(q, maxQueued, ttl, e.frame, e.now).0;
            CreatedBy(q', k, e) || (k in q && q'[k].createdAt == q[k].createdAt)
  {
    hide Stitched;
  }

  /**
   * A reassembler that started empty has room whenever fewer than its bound of packets queued something in
   * the last ttl.
   */
  lemma RoomWhenFewPackets(maxQueued: nat, ttl: int, evs: seq<Arrival>, now: int)
    requires |RecentKeys(evs, now, ttl)| < maxQueued
    ensures Room(QueueAfter(map[], maxQueued, ttl, evs), maxQueued, ttl, now)
  {
    hide QueueAfter, RecentKeys;
    var q := QueueAfter(map[], maxQueued, ttl, evs);
    var live := Unexpired(q, now, ttl);
    AllFromRun(maxQueued, ttl, evs);
    forall k | k in live.Keys
      ensures k in RecentKeys(evs, now, ttl)
    {
      var j :| 0 <= j < |evs| && CreatedBy(q, k, evs[j]);
    }
    SubsetSize(live.Keys, RecentKeys(evs, now, ttl));
    assert |live| == |live.Keys|;
  }

  // ---- a packet alone ---------------------------------------------------------------------------

  /** Only pieces of the packet arrive, all within one ttl, and the clock does not go back. */
  ghost predicate Alone(p: Packet, ttl: int, evs: seq<Arrival>) {
    && (forall j :: 0 <= j < |evs| ==> IsPieceOf(p, evs[j].frame)) && OwnKey(p, evs) && Monotone(evs)
    && forall i, j :: 0 <= i <= j < |evs| ==> evs[j].now - evs[i].now <= ttl
  }

  /** What a run of such pieces has done to an empty reassembler before the n-th of them. */
  ghost predicate AloneAt(p: Packet, maxQueued: nat, ttl: int, evs: seq<Arrival>, n: nat)
    requires n <= |evs|
  {
    var q, pr := QueueAfter(map[], maxQueued, ttl, evs[..n]), PlainProgress(p, Progress({}, 0), evs[..n]);
    && Tracks(q, p, pr) && q.Keys <= {KeyOf(p.frame)}
    && (pr.got != {} ==> exists j :: 0 <= j < n && pr.since == evs[j].now)
  }

  lemma AloneKept(p: Packet, maxQueued: nat, ttl: int, evs: seq<Arrival>, n: nat)
    requires Alone(p, ttl, evs) && n < |evs| && 0 < maxQueued && AloneAt(p, maxQueued, ttl, evs, n)
    ensures Kept(p, map[], Progress({}, 0), maxQueued, ttl, evs, n)
  {
    hide QueueAfter, PlainProgress, IsPieceOf, Collected, Fragments;
    var q, pr := QueueAfter(map[], maxQueued, ttl, evs[..n]), PlainProgress(p, Progress({}, 0), evs[..n]);
    if pr.got == {} {
      assert q.Keys == {};
      assert Unexpired(q, evs[n].now, ttl) == map[];
    }
  }

  lemma AloneStep(p: Packet, maxQueued: nat, ttl: int, evs: seq<Arrival>, n: nat)
    requires p.Valid() && n < |evs| && IsPieceOf(p, evs[n].frame) && OwnKey(p, evs)
    requires AloneAt(p, maxQueued, ttl, evs, n) && Kept(p, map[], Progress({}, 0), maxQueued, ttl, evs, n)
    ensures AloneAt(p, maxQueued, ttl, evs, n + 1)
  {
    hide Tracks, AddTo, OwnKey, Ids, Packet.Valid, Fragments, Room;
    var upto, q := evs[..n + 1], QueueAfter(map[], maxQueued, ttl, evs[..n]);
    var pr, pr' := PlainProgress(p, Progress({}, 0), evs[..n]), PlainProgress(p, Progress({}, 0), upto);
    assert upto[..n] == evs[..n] && upto[n] == evs[n];
    OwnPiece(p, evs, n);
    Step(p, q, pr, maxQueued, ttl, evs[n]);
    OnlyItsKey(q, maxQueued, ttl, evs[n].frame, evs[n].now);
    assert pr'.got != {} ==> pr'.since == evs[n].now || (pr.got != {} && pr'.since == pr.since);
  }

  lemma OwnPiece(p: Packet, evs: seq<Arrival>, n: nat)
    requires n < |evs| && OwnKey(p, evs) && IsPieceOf(p, evs[n].frame)
    ensures evs[n].frame in p.Pieces()
  {
  }

  lemma AloneStart(p: Packet, maxQueued: nat, ttl: int, evs: seq<Arrival>)
    requires p.Valid()
    ensures AloneAt(p, maxQueued, ttl, evs, 0)
  {
    hide Tracks;
    AbsentTracks(p, map[]);
  }

  lemma AloneFacts(p: Packet, ttl: int, evs: seq<Arrival>, k: nat)
    requires Alone(p, ttl, evs) && k < |evs|
    ensures IsPieceOf(p, evs[k].frame) && OwnKey(p, evs)
  {
    hide IsPieceOf, OwnKey, Monotone;
  }

  lemma {:induction false} AloneRun(p: Packet, maxQueued: nat, ttl: int, evs: seq<Arrival>, n: nat)
    requires p.Valid() && Alone(p, ttl, evs) && n <= |evs| && 0 < maxQueued
    ensures AloneAt(p, maxQueued, ttl, evs, n)
  {
    hide *;
    if n == 0 {
      AloneStart(p, maxQueued, ttl, evs);
    } else {
      AloneFacts(p, ttl, evs, n - 1);
      AloneRun(p, maxQueued, ttl, evs, n - 1);
      AloneKept(p, maxQueued, ttl, evs, n - 1);
      AloneStep(p, maxQueued, ttl, evs, n - 1);
    }
  }

  lemma OnlyItsKey(q: Queue, maxQueued: nat, ttl: int, f: Frame, now: int)
    ensures AddTo(q, maxQueued, ttl, f, now).0.Keys <= q.Keys + {KeyOf(f)}
  {
    hide Stitched;
  }

  /** So the condition is met, for every packet, by its pieces in any order on an empty reassembler. */
  lemma AloneIsUndisturbed(p: Packet, maxQueued: nat, ttl: int, evs: seq<Arrival>)
    requires p.Valid() && Alone(p, ttl, evs) && 0 < maxQueued
    ensures Undisturbed(p, map[], Progress({}, 0), maxQueued, ttl, evs)
  {
    hide Kept, QueueAfter, PlainProgress;
    forall j | 0 <= j < |evs|
      ensures Kept(p, map[], Progress({}, 0), maxQueued, ttl, evs, j)
    {
      AloneRun(p, maxQueued, ttl, evs, j);
      AloneKept(p, maxQueued, ttl, evs, j);
    }
    AbsentTracks(p, map[]);
  }

  // ---- the wire ---------------------------------------------------------------------------------

  /** Every piece that encodes comes off the wire as it was sent. */
  lemma PieceSurvivesWire(p: Packet, i: nat)
    requires p.Valid() && i < |p.Pieces()| && Encode(p.Pieces()[i]).Ok?
    ensures Decode(Encode(p.Pieces()[i]).value) == Ok(p.Pieces()[i])
  {
    hide Encode, Decode, Fragments, Piece;
    var f := p.Pieces()[i];
    PieceFacts(p, i);
    PieceSize(p, i);
    DecodeEncode(f);
    assert f.payload[..|f.payload|] == f.payload;
  }

  lemma PieceSize(p: Packet, i: nat)
    requires p.Valid() && i < |p.Pieces()|
    ensures |p.Pieces()[i].payload| <= 65535 && p.Pieces()[i].payloadLen == |p.Pieces()[i].payload|
  {
    PieceBounds(|p.frame.payload|, p.max, i);
    assert p.Pieces()[i] == Piece(p.frame, p.max, i);
  }

  lemma PieceEncodes(p: Packet, i: nat)
    requires p.Valid() && i < |p.Pieces()| && AddrBytes(p.frame.addr).Ok?
    ensures Encode(p.Pieces()[i]).Ok?
  {
    assert p.Pieces()[i] == Piece(p.frame, p.max, i);
  }

  // ---- the reassembler itself -------------------------------------------------------------------

  /** The reassembler, driven from any state through any traffic, returns just those outcomes. */
  method Run(r: Reassembler, evs: seq<Arrival>) returns (outcomes: seq<Outcome>)
    requires r.Valid()
    modifies r
    ensures r.Valid() && |outcomes| == |evs| && r.entries == QueueAfter(old(r.entries), r.maxQueued, r.ttl, evs)
    ensures forall i :: 0 <= i < |evs| ==> outcomes[i] == LastOutcome(old(r.entries), r.maxQueued, r.ttl, evs[..i + 1])
  {
    hide AddTo, Sound;
    outcomes := [];
    for i := 0 to |evs|
      invariant r.Valid() && |outcomes| == i && r.entries == QueueAfter(old(r.entries), r.maxQueued, r.ttl, evs[..i])
      invariant forall j :: 0 <= j < i ==> outcomes[j] == LastOutcome(old(r.entries), r.maxQueued, r.ttl, evs[..j + 1])
    {
      assert evs[..i + 1][..i] == evs[..i] && evs[..i + 1][i] == evs[i];
      var o := r.Add(evs[i].frame, evs[i].now);
      outcomes := outcomes + [o];
    }
    assert evs[..|evs|] == evs;
  }

  /** What reaches the reassembler: a piece of the packet, sent over the wire, or any other frame. */
  datatype Delivery = Own(i: nat, now: int) | Foreign(frame: Frame, now: int)

  ghost predicate ValidDelivery(p: Packet, d: Delivery) {
    match d
    case Own(i, _) => i < |p.Pieces()|
    case Foreign(f, _) => !IsPieceOf(p, f)
  }

  ghost function ArrivalOf(p: Packet, d: Delivery): Arrival
    requires ValidDelivery(p, d)
  {
    match d
    case Own(i, now) => Arrival(p.Pieces()[i], now)
    case Foreign(f, now) => Arrival(f, now)
  }

  ghost function Traffic(p: Packet, ds: seq<Delivery>): (evs: seq<Arrival>)
    requires forall k :: 0 <= k < |ds| ==> ValidDelivery(p, ds[k])
    ensures |evs| == |ds| && forall k :: 0 <= k < |ds| ==> evs[k] == ArrivalOf(p, ds[k])
  {
    seq(|ds|, k requires 0 <= k < |ds| => ArrivalOf(p, ds[k]))
  }

  /** The numbers of the pieces delivered since all of them were last complete. */
  ghost function Gathered(ds: seq<Delivery>, got: set<nat>, n: nat): set<nat> {
    if ds == [] then got
    else
      var d, before := ds[|ds| - 1], Gathered(ds[..|ds| - 1], got, n);
      if d.Foreign? then before else if before + {d.i} == Ids(n) then {} else before + {d.i}
  }

  lemma {:induction false} ProgressIsGathered(p: Packet, pr0: Progress, ds: seq<Delivery>, evs: seq<Arrival>)
    requires p.Valid() && (forall k :: 0 <= k < |ds| ==> ValidDelivery(p, ds[k])) && evs == Traffic(p, ds)
    ensures PlainProgress(p, pr0, evs).got == Gathered(ds, pr0.got, |p.Pieces()|)
    ensures OwnKey(p, evs)
  {
    hide Fragments;
    if ds != [] {
      var n := |ds| - 1;
      ProgressIsGathered(p, pr0, ds[..n], evs[..n]);
      if ds[n].Own? {
        PieceFacts(p, ds[n].i);
      }
    }
  }

  /**
   * The whole path of a packet: fragmented, each piece encoded, carried in any order and any number of
   * times among any other traffic, decoded and added to a reassembler in any state that has none of its
   * pieces yet. Every piece gets the outcome that is due; undisturbed, the original frame comes back
   * exactly whenever the last missing piece has arrived.
   */
  method Carry(r: Reassembler, p: Packet, ds: seq<Delivery>) returns (outcomes: seq<Outcome>)
    requires r.Valid() && p.Valid() && AddrBytes(p.frame.addr).Ok?
    requires forall k <- r.entries :: !SamePacket(r.entries[k].frame, p.frame)
    requires forall k :: 0 <= k < |ds| ==> ValidDelivery(p, ds[k])
    modifies r
    ensures r.Valid() && |outcomes| == |ds|
    ensures forall k :: 0 <= k < |ds| && ds[k].Own? ==>
              outcomes[k] == DueAt(p, old(r.entries), r.maxQueued, r.ttl, Traffic(p, ds), k)
    ensures Undisturbed(p, old(r.entries), Progress({}, 0), r.maxQueued, r.ttl, Traffic(p, ds)) ==>
              forall k :: 0 <= k < |ds| && ds[k].Own? ==>
                outcomes[k] == if Gathered(ds[..k], {}, |p.Pieces()|) + {ds[k].i} == Ids(|p.Pieces()|)
                               then Complete(p.Whole()) else Waiting
  {
    hide Encode, Decode, AddTo, Piece, Gathered, Undisturbed, FragCount, Sound, QueueAfter, LastOutcome, IsPieceOf,
         DueAt;
    assert KeyOf(p.frame) !in r.entries by { NotQueued(r.entries, p.frame); }
    var fs := Fragment(p.frame, p.max);
    var evs: seq<Arrival> := [];
    for k := 0 to |ds|
      invariant r.Valid() && r.entries == old(r.entries)
      invariant |evs| == k && forall j :: 0 <= j < k ==> evs[j] == ArrivalOf(p, ds[j])
    {
      match ds[k] {
        case Own(i, now) =>
          assert Encode(fs[i]).Ok? by { PieceEncodes(p, i); }
          var b := EncodeDatagram(fs[i]);
          PieceSurvivesWire(p, i);
          evs := evs + [Arrival(Decode(b.value).value, now)];
        case Foreign(f, now) =>
          evs := evs + [Arrival(f, now)];
      }
    }
    assert evs == Traffic(p, ds);
    ghost var q0 := r.entries;
    outcomes := Run(r, evs);
    forall k | 0 <= k < |ds| && ds[k].Own?
      ensures outcomes[k] == DueAt(p, q0, r.maxQueued, r.ttl, evs, k)
    {
      DueOutcome(p, q0, r.maxQueued, r.ttl, ds, k);
    }
    if Undisturbed(p, q0, Progress({}, 0), r.maxQueued, r.ttl, evs) {
      forall k | 0 <= k < |ds| && ds[k].Own?
        ensures outcomes[k] ==
                if Gathered(ds[..k], {}, |fs|) + {ds[k].i} == Ids(|fs|) then Complete(p.Whole()) else Waiting
      {
        CarriedOutcome(p, q0, r.maxQueued, r.ttl, ds, k);
      }
    }
  }

  lemma NotQueued(q: Queue, f: Frame)
    requires Sound(q) && forall k <- q :: !SamePacket(q[k].frame, f)
    ensures KeyOf(f) !in q
  {
    if KeyOf(f) in q {
      KeyIff(q[KeyOf(f)].frame, f);
    }
  }

  /** The outcome that is due for the k-th arrival, on a queue that starts without the packet. */
  ghost function DueAt(p: Packet, q0: Queue, maxQueued: nat, ttl: int, evs: seq<Arrival>, k: nat): Outcome
    requires k < |evs|
  {
    Due(p, ProgressAfter(p, q0, Progress({}, 0), maxQueued, ttl, evs[..k]), evs[k], ttl,
        Room(QueueAfter(q0, maxQueued, ttl, evs[..k]), maxQueued, ttl, evs[k].now))
  }

  lemma DueOutcome(p: Packet, q0: Queue, maxQueued: nat, ttl: int, ds: seq<Delivery>, k: nat)
    requires p.Valid() && (forall k :: 0 <= k < |ds| ==> ValidDelivery(p, ds[k])) && k < |ds| && ds[k].Own?
    requires KeyOf(p.frame) !in q0
    ensures LastOutcome(q0, maxQueued, ttl, Traffic(p, ds)[..k + 1]) == DueAt(p, q0, maxQueued, ttl, Traffic(p, ds), k)
  {
    hide Fragments, ProgressAfter, AddTo, LastOutcome, QueueAfter, Due, Room, Gathered, PlainProgress;
    var all := Traffic(p, ds);
    var evs := all[..k + 1];
    assert evs[..k] == all[..k] && evs[k] == all[k] && evs == Traffic(p, ds[..k + 1]);
    ProgressIsGathered(p, Progress({}, 0), ds[..k + 1], evs);
    PieceFacts(p, ds[k].i);
    AbsentTracks(p, q0);
    ReassembledExactlyWhenComplete(p, q0, Progress({}, 0), maxQueued, ttl, evs);
  }

  lemma AbsentTracks(p: Packet, q: Queue)
    requires p.Valid() && KeyOf(p.frame) !in q
    ensures Tracks(q, p, Progress({}, 0))
  {
    FragCountFacts(|p.frame.payload|, p.max);
    assert 0 in Ids(|p.Pieces()|);
  }

  lemma CarriedOutcome(p: Packet, q0: Queue, maxQueued: nat, ttl: int, ds: seq<Delivery>, k: nat)
    requires p.Valid() && (forall k :: 0 <= k < |ds| ==> ValidDelivery(p, ds[k])) && k < |ds| && ds[k].Own?
    requires Undisturbed(p, q0, Progress({}, 0), maxQueued, ttl, Traffic(p, ds))
    ensures LastOutcome(q0, maxQueued, ttl, Traffic(p, ds)[..k + 1]) ==
            if Gathered(ds[..k], {}, |p.Pieces()|) + {ds[k].i} == Ids(|p.Pieces()|)
            then Complete(p.Whole()) else Waiting
  {
    hide Fragments, PlainProgress, Gathered, AddTo, Undisturbed, LastOutcome, QueueAfter;
    var evs, pr0 := Traffic(p, ds)[..k + 1], Progress({}, 0);
    UndisturbedPrefix(p, q0, pr0, maxQueued, ttl, Traffic(p, ds), k + 1);
    assert evs[..k] == Traffic(p, ds[..k]);
    ProgressIsGathered(p, pr0, ds[..k], evs[..k]);
    PieceFacts(p, ds[k].i);
    UndisturbedOutcome(p, q0, pr0, maxQueued, ttl, evs);
  }

  lemma UndisturbedPrefix(p: Packet, q0: Queue, pr0: Progress, maxQueued: nat, ttl: int, evs: seq<Arrival>, n: nat)
    requires n <= |evs| && Undisturbed(p, q0, pr0, maxQueued, ttl, evs)
    ensures Undisturbed(p, q0, pr0, maxQueued, ttl, evs[..n])
  {
    hide Tracks, QueueAfter, PlainProgress, IsPieceOf, Room;
    forall j | 0 <= j < n && IsPieceOf(p, evs[..n][j].frame)
      ensures Kept(p, q0, pr0, maxQueued, ttl, evs[..n], j)
    {
      assert evs[..n][..j] == evs[..j];
      assert Kept(p, q0, pr0, maxQueued, ttl, evs, j);
    }
  }
}
