/**
 * The sliding replay bitmap of internal/wire/cipher_stream.go: 2048 bits in 32 words, indexed
 * modulo 2048, against the plain set of numbers accepted so far.
 */
module ReplayWindow {
  import opened Bits
  import opened Bytes

  const WINDOW := 2048
  const WORDS := 32

  // ---- the reference: a plain set ------------------------------------------------------------

  /**
   * What the window promises: a positive number, never accepted before, and less than 2048 below every
   * accepted one.
   */
  ghost predicate Acceptable(accepted: set<nat>, s: nat) {
    s >= 1 && s !in accepted && forall a <- accepted :: a < s + WINDOW
  }

  // ---- the bitmap ----------------------------------------------------------------------------

  function Idx(s: nat): (i: nat)
    requires s >= 1
    ensures i < WINDOW
  {
    (s - 1) % WINDOW
  }

  /** Two numbers less than 2048 apart share a bit only when they are the same. */
  lemma IdxInjective(s: nat, t: nat)
    requires 1 <= s <= t < s + WINDOW
    ensures Idx(s) == Idx(t) <==> s == t
  {
  }

  /** The only call on which the clearing loop of lines 61-66 does not come to an end. */
  predicate Diverges(maxSeq: nat, s: nat) {
    s == MAX_U64 && 0 < s - maxSeq < WINDOW
  }

  /**
   * The same in terms of the accepted numbers: the largest number comes, fresh, less than 2048 above an
   * accepted one.
   */
  ghost predicate Stuck(accepted: set<nat>, s: nat) {
    s == MAX_U64 && s !in accepted && exists a <- accepted :: a + WINDOW > s
  }

  class Window {
    var maxSeq: nat
    const bitmap: array<nat>
    ghost var accepted: set<nat>

    /** The bit that stands for number `s`. */
    ghost predicate Marked(s: nat)
      requires s >= 1 && bitmap.Length == WORDS
      reads this, bitmap
    {
      Bits.Bit(bitmap[Idx(s) / 64], Idx(s) % 64)
    }

    /** The bits of the last 2048 numbers say exactly which of them were accepted. */
    ghost predicate Valid()
      reads this, bitmap
    {
      && bitmap.Length == WORDS
      && maxSeq <= MAX_U64
      && (forall a <- accepted :: 1 <= a <= maxSeq)
      && (maxSeq > 0 ==> maxSeq in accepted)
      && forall s :: 1 <= s <= maxSeq < s + WINDOW ==> (Marked(s) <==> s in accepted)
    }

    constructor ()
      ensures Valid() && fresh(bitmap) && accepted == {} && maxSeq == 0
    {
      bitmap := new nat[WORDS](_ => 0);
      maxSeq := 0;
      accepted := {};
    }

    /** A call on the window gets stuck exactly when its clearing loop does. */
    lemma StuckIff(s: nat)
      requires Valid() && s <= MAX_U64
      ensures Stuck(accepted, s) <==> Diverges(maxSeq, s)
    {
    }

    method Mark(s: nat)
      requires s >= 1 && bitmap.Length == WORDS
      modifies bitmap
      ensures forall t :: t >= 1 ==> (Marked(t) <==> Idx(t) == Idx(s) || old(Marked(t)))
    {
      var idx := Idx(s);
      var w := bitmap[idx / 64];
      bitmap[idx / 64] := Or(w, One(idx % 64));
      forall t: nat | t >= 1
        ensures Marked(t) <==> Idx(t) == Idx(s) || old(Marked(t))
      {
        BitOr(w, One(idx % 64), Idx(t) % 64);
        BitOne(idx % 64, Idx(t) % 64);
      }
    }

    method Unmark(s: nat)
      requires s >= 1 && bitmap.Length == WORDS
      modifies bitmap
      ensures forall t :: t >= 1 ==> (Marked(t) <==> Idx(t) != Idx(s) && old(Marked(t)))
    {
      var idx := Idx(s);
      var w := bitmap[idx / 64];
      bitmap[idx / 64] := AndNot(w, One(idx % 64));
      forall t: nat | t >= 1
        ensures Marked(t) <==> Idx(t) != Idx(s) && old(Marked(t))
      {
        BitAndNot(w, One(idx % 64), Idx(t) % 64);
        BitOne(idx % 64, Idx(t) % 64);
      }
    }

    /** replayWindow.checkAndAdd */
    method CheckAndAdd(s: nat) returns (ok: bool)
      requires Valid() && s <= MAX_U64
      requires !Diverges(maxSeq, s)
      modifies this`maxSeq, this`accepted, bitmap
      ensures Valid()
      ensures ok <==> Acceptable(old(accepted), s)
      ensures accepted == if ok then old(accepted) + {s} else old(accepted)
    {
      if s == 0 {
        return false;
      }
      if s > maxSeq {
        Advance(s);
        maxSeq := s;
        Mark(s);
        accepted := accepted + {s};
        forall t: nat | 1 <= t <= maxSeq < t + WINDOW
          ensures Marked(t) <==> t in accepted
        {
          IdxInjective(t, s);
        }
        return true;
      }
      if maxSeq - s >= WINDOW {
        return false;
      }
      var idx := Idx(s);
      TestBit(bitmap[idx / 64], idx % 64);
      if And(bitmap[idx / 64], One(idx % 64)) != 0 {
        assert Marked(s);
        return false;
      }
      Mark(s);
      accepted := accepted + {s};
      forall t: nat | 1 <= t <= maxSeq < t + WINDOW
        ensures Marked(t) <==> t in accepted
      {
        if t <= s { IdxInjective(t, s); } else { IdxInjective(s, t); }
      }
      return true;
    }

    /** Lines 53-67: forget the numbers between the old maximum and the new one. */
    method Advance(s: nat)
      requires Valid() && maxSeq < s <= MAX_U64 && !Diverges(maxSeq, s)
      modifies bitmap
      ensures forall t :: 1 <= t < s < t + WINDOW ==> (Marked(t) <==> t in accepted)
    {
      if s - maxSeq >= WINDOW {
        for i := 0 to WORDS
          invariant forall j :: 0 <= j < i ==> bitmap[j] == 0
        {
          bitmap[i] := 0;
        }
        forall t: nat | 1 <= t
          ensures !Marked(t)
        {
          BitZero(Idx(t) % 64);
        }
      } else {
        var t := maxSeq + 1;
        while t <= s
          invariant maxSeq < t <= s + 1
          invariant forall u :: 1 <= u < t && s < u + WINDOW ==> (Marked(u) <==> u in accepted)
          decreases s + 1 - t
        {
          Unmark(t);
          forall u: nat | 1 <= u < t + 1 && s < u + WINDOW
            ensures Marked(u) <==> u in accepted
          {
            IdxInjective(u, t);
          }
          t := if t == MAX_U64 then 0 else t + 1;
        }
      }
    }
  }

  // ---- whole runs ----------------------------------------------------------------------------

  /** The numbers accepted while presenting `seqs` one after the other to a window that starts with `accepted`. */
  ghost function AcceptedAfter(accepted: set<nat>, seqs: seq<nat>): (r: set<nat>) {
    if seqs == [] then accepted
    else
      var before := AcceptedAfter(accepted, seqs[..|seqs| - 1]);
      var s := seqs[|seqs| - 1];
      if Acceptable(before, s) then before + {s} else before
  }

  /** The verdict on the i-th number of a run that starts from an empty window. */
  ghost predicate Verdict(seqs: seq<nat>, i: nat)
    requires i < |seqs|
  {
    Acceptable(AcceptedAfter({}, seqs[..i]), seqs[i])
  }

  lemma {:induction false} AcceptedAfterIff(seqs: seq<nat>, a: nat)
    ensures a in AcceptedAfter({}, seqs) <==> exists i :: 0 <= i < |seqs| && seqs[i] == a && Verdict(seqs, i)
  {
    if seqs != [] {
      var n := |seqs| - 1;
      var init := seqs[..n];
      AcceptedAfterIff(init, a);
      assert forall i :: 0 <= i < n ==> init[..i] == seqs[..i];
      if a in AcceptedAfter({}, init) {
        var i :| 0 <= i < n && init[i] == a && Verdict(init, i);
        assert seqs[i] == a && Verdict(seqs, i);
      } else if a in AcceptedAfter({}, seqs) {
        assert seqs[n] == a && Verdict(seqs, n);
      }
      if i :| 0 <= i < |seqs| && seqs[i] == a && Verdict(seqs, i) {
        if i < n {
          assert init[i] == a && Verdict(init, i);
        }
      }
    }
  }

  /**
   * A run accepts its i-th number exactly when that number is positive, no earlier accepted number equals it,
   * and no earlier accepted number is 2048 or more above it.
   */
  lemma VerdictIff(seqs: seq<nat>, i: nat)
    requires i < |seqs|
    ensures Verdict(seqs, i) <==>
            seqs[i] >= 1 &&
            forall j :: 0 <= j < i && Verdict(seqs, j) ==> seqs[j] != seqs[i] && seqs[j] < seqs[i] + 2048
  {
    var init := seqs[..i];
    var before := AcceptedAfter({}, init);
    assert forall j :: 0 <= j < i ==> init[..j] == seqs[..j];
    forall a: nat
      ensures a in before <==> exists j :: 0 <= j < i && seqs[j] == a && Verdict(seqs, j)
    {
      AcceptedAfterIff(init, a);
      if j :| 0 <= j < i && init[j] == a && Verdict(init, j) {
        assert seqs[j] == a && Verdict(seqs, j);
      }
      if j :| 0 <= j < i && seqs[j] == a && Verdict(seqs, j) {
        assert init[j] == a && Verdict(init, j);
      }
    }
    if !Acceptable(before, seqs[i]) && seqs[i] >= 1 {
      var a :| a in before && (a == seqs[i] || a >= seqs[i] + WINDOW);
      var j :| 0 <= j < i && seqs[j] == a && Verdict(seqs, j);
      assert !(seqs[j] != seqs[i] && seqs[j] < seqs[i] + WINDOW);
    }
    if j :| 0 <= j < i && Verdict(seqs, j) && !(seqs[j] != seqs[i] && seqs[j] < seqs[i] + WINDOW) {
      assert seqs[j] in before;
    }
  }

  /** No run accepts the same number twice. */
  lemma NeverTwice(seqs: seq<nat>, i: nat, j: nat)
    requires i < j < |seqs| && Verdict(seqs, i) && Verdict(seqs, j)
    ensures seqs[i] != seqs[j]
  {
    VerdictIff(seqs, j);
  }

  /** The bitmap, driven through any run whose calls all return, gives exactly the verdicts of the reference. */
  method Run(seqs: seq<nat>) returns (verdicts: seq<bool>)
    requires forall i :: 0 <= i < |seqs| ==> seqs[i] <= MAX_U64 && !Stuck(AcceptedAfter({}, seqs[..i]), seqs[i])
    ensures |verdicts| == |seqs|
    ensures forall i :: 0 <= i < |seqs| ==> (verdicts[i] <==> Verdict(seqs, i))
  {
    hide Window.Valid, Acceptable, Stuck, Diverges;
    var w := new Window();
    verdicts := [];
    for i := 0 to |seqs|
      invariant w.Valid() && fresh(w) && fresh(w.bitmap)
      invariant |verdicts| == i && w.accepted == AcceptedAfter({}, seqs[..i])
      invariant forall j :: 0 <= j < i ==> (verdicts[j] <==> Verdict(seqs, j))
    {
      w.StuckIff(seqs[i]);
      var ok := w.CheckAndAdd(seqs[i]);
      assert seqs[..i + 1][..i] == seqs[..i];
      verdicts := verdicts + [ok];
    }
    assert seqs[..|seqs|] == seqs;
  }

  // ---- the clearing loop at the top of the number range ---------------------------------------

  /** The loop variable of line 61 after `n` increments of a 64-bit counter that starts at `s0`. */
  function LoopVar(s0: u64, n: nat): u64 {
    if n == 0 then s0 else var s := LoopVar(s0, n - 1); if s == MAX_U64 then 0 else s + 1
  }

  lemma {:induction false} LoopVarBelow(s0: u64, n: nat)
    requires s0 + n <= MAX_U64
    ensures LoopVar(s0, n) == s0 + n
  {
    if n > 0 { LoopVarBelow(s0, n - 1); }
  }

  /**
   * Entered with s0 <= s, the loop reaches an s0+n for which its guard `<= s` fails exactly when s is not
   * the largest number.
   */
  lemma ClearingLoopEnds(s0: u64, s: u64)
    requires s0 <= s
    ensures (exists n: nat :: LoopVar(s0, n) > s) <==> s != MAX_U64
  {
    if s != MAX_U64 {
      LoopVarBelow(s0, s + 1 - s0);
      assert LoopVar(s0, s + 1 - s0) > s;
    }
  }
}
