/** The token-bucket pacer of internal/app/pacer.go, with time in seconds and tokens in bytes, both real. */
module Pacer {
  datatype Bucket = Bucket(tokens: real, last: real)

  /** The tokens a writer finds at time `now`: negative while it queues behind a release in the future. */
  function Refilled(b: Bucket, rate: real, burst: real, now: real): real {
    var t := b.tokens + (now - b.last) * rate;
    if t > burst then burst else t
  }

  /** The bucket after a write of `n` bytes; `last` is when those bytes are released. */
  function After(b: Bucket, rate: real, burst: real, n: nat, now: real): Bucket
    requires rate > 0.0
  {
    var t := Refilled(b, rate, burst, now);
    if t < n as real then Bucket(0.0, now + (n as real - t) / rate) else Bucket(t - n as real, now)
  }

  class PacerWriter {
    const rate: real
    const burst: real
    var tokens: real
    var last: real

    constructor (bytesPerSec: real, burstBytes: real, now: real)
      ensures rate == bytesPerSec && burst == (if burstBytes <= 0.0 then 65536.0 else burstBytes)
      ensures tokens == burst && last == now
    {
      rate := bytesPerSec;
      burst := if burstBytes <= 0.0 then 65536.0 else burstBytes;
      tokens := if burstBytes <= 0.0 then 65536.0 else burstBytes;
      last := now;
    }

    /** Write, up to the write on the underlying stream: when it happens. A rate that is not positive paces nothing. */
    method Write(n: nat, now: real) returns (release: real)
      modifies this
      ensures rate <= 0.0 ==> release == now && tokens == old(tokens) && last == old(last)
      ensures rate > 0.0 ==>
                Bucket(tokens, last) == After(Bucket(old(tokens), old(last)), rate, burst, n, now) && release == last
    {
      if rate <= 0.0 {
        return now;
      }
      var elapsed := now - last;
      tokens := tokens + elapsed * rate;
      if tokens > burst {
        tokens := burst;
      }
      last := now;
      var needed := n as real;
      if tokens < needed {
        var deficit := needed - tokens;
        var sleep := deficit / rate;
        tokens := 0.0;
        last := last + sleep;
        release := now;
        if sleep > 0.0 {
          release := now + sleep;
        }
      } else {
        tokens := tokens - needed;
        release := now;
      }
    }
  }

  // ---- whole runs --------------------------------------------------------------------------------

  datatype Call = Call(n: nat, now: real)

  /** The bucket after a run of writes. */
  function BucketAfter(rate: real, burst: real, start: real, calls: seq<Call>): Bucket
    requires rate > 0.0
  {
    if calls == [] then Bucket(burst, start)
    else
      var c := calls[|calls| - 1];
      After(BucketAfter(rate, burst, start, calls[..|calls| - 1]), rate, burst, c.n, c.now)
  }

  /** When the i-th write is released. */
  function Release(rate: real, burst: real, start: real, calls: seq<Call>, i: nat): real
    requires rate > 0.0 && i < |calls|
  {
    BucketAfter(rate, burst, start, calls[..i + 1]).last
  }

  /** The bytes of the writes released by time `t`. */
  function ReleasedBy(rate: real, burst: real, start: real, calls: seq<Call>, t: real): nat
    requires rate > 0.0
  {
    if calls == [] then 0
    else
      var before := ReleasedBy(rate, burst, start, calls[..|calls| - 1], t);
      if BucketAfter(rate, burst, start, calls).last <= t then before + calls[|calls| - 1].n else before
  }

  function Total(calls: seq<Call>): nat {
    if calls == [] then 0 else Total(calls[..|calls| - 1]) + calls[|calls| - 1].n
  }

  /** Clock readings that start no earlier than the pacer and never go back. */
  ghost predicate Monotone(calls: seq<Call>, start: real) {
    && (forall i :: 0 <= i < |calls| ==> start <= calls[i].now)
    && (forall i, j :: 0 <= i <= j < |calls| ==> calls[i].now <= calls[j].now)
  }

  /** The last clock reading of a run. */
  function Clock(calls: seq<Call>, start: real): real {
    if calls == [] then start else calls[|calls| - 1].now
  }

  /** What every step keeps. */
  ghost predicate Sane(b: Bucket, rate: real, burst: real, start: real, total: nat, clock: real) {
    && 0.0 <= b.tokens <= burst
    && clock <= b.last
    && (clock < b.last ==> b.tokens == 0.0)
    && total as real + b.tokens <= burst + rate * (b.last - start)
  }

  lemma MulDiv(x: real, rate: real)
    requires rate > 0.0
    ensures rate * (x / rate) == x
  {
  }

  lemma MulNonNegative(x: real, rate: real)
    requires rate > 0.0
    ensures x >= 0.0 ==> x * rate >= 0.0 && x / rate >= 0.0
    ensures x <= 0.0 ==> x * rate <= 0.0
  {
  }

  lemma Distribute(rate: real, a: real, b: real, c: real)
    ensures rate * (b - a) + (c - b) * rate == rate * (c - a)
  {
  }

  lemma Step(b: Bucket, rate: real, burst: real, start: real, total: nat, clock: real, n: nat, now: real)
    requires rate > 0.0 && burst >= 0.0 && clock <= now && Sane(b, rate, burst, start, total, clock)
    ensures var b' := After(b, rate, burst, n, now);
            Sane(b', rate, burst, start, total + n, now) && b.last <= b'.last
  {
    var t := Refilled(b, rate, burst, now);
    var b' := After(b, rate, burst, n, now);
    Distribute(rate, start, b.last, now);
    assert total as real + t <= burst + rate * (now - start);
    MulNonNegative(now - b.last, rate);
    if t < n as real {
      var deficit := n as real - t;
      var sleep := deficit / rate;
      MulDiv(deficit, rate);
      MulNonNegative(deficit, rate);
      Distribute(rate, start, now, now + sleep);
      assert sleep * rate == deficit;
      if now < b.last {
        Behind(b, rate, now, deficit, n as real);
      }
    }
  }

  /** A write is released at the first time when the bucket holds its bytes, not later, and takes exactly those. */
  lemma ReleaseIsLeast(b: Bucket, rate: real, burst: real, n: nat, now: real, t: real)
    requires rate > 0.0 && now <= t
    ensures var b' := After(b, rate, burst, n, now);
            && now <= b'.last
            && (b'.last <= t <==> Refilled(b, rate, burst, now) + (t - now) * rate >= n as real)
            && b'.tokens == Refilled(b, rate, burst, now) + (b'.last - now) * rate - n as real
  {
    var have, need := Refilled(b, rate, burst, now), n as real;
    if have < need {
      var wait := (need - have) / rate;
      MulDiv(need - have, rate);
      MulNonNegative(need - have, rate);
      assert wait * rate == need - have;
      if t - now >= wait {
        MulNonNegative(t - now - wait, rate);
      } else {
        MulPositive(wait - (t - now), rate);
      }
      assert (t - now) * rate == wait * rate + (t - now - wait) * rate;
    } else {
      MulNonNegative(t - now, rate);
    }
  }

  lemma MulPositive(x: real, rate: real)
    requires rate > 0.0 && x > 0.0
    ensures x * rate > 0.0
  {
  }

  /** A writer that queues behind a future release is released after it. */
  lemma Behind(b: Bucket, rate: real, now: real, deficit: real, n: real)
    requires rate > 0.0 && n >= 0.0 && deficit == n - (now - b.last) * rate
    ensures b.last <= now + deficit / rate
  {
    MulNonNegative(n, rate);
    var wait := b.last - now;
    assert deficit == n + wait * rate;
    assert deficit / rate == n / rate + wait;
  }

  /** Tokens stay within the bucket and the budget is kept after every step of every run. */
  lemma {:induction false} RunIsSane(rate: real, burst: real, start: real, calls: seq<Call>)
    requires rate > 0.0 && burst >= 0.0 && Monotone(calls, start)
    ensures Sane(BucketAfter(rate, burst, start, calls), rate, burst, start, Total(calls), Clock(calls, start))
    ensures calls != [] ==>
              BucketAfter(rate, burst, start, calls[..|calls| - 1]).last <= BucketAfter(rate, burst, start, calls).last
  {
    if calls == [] {
      assert rate * (start - start) == 0.0;
    } else {
      var before, c := calls[..|calls| - 1], calls[|calls| - 1];
      RunIsSane(rate, burst, start, before);
      Step(BucketAfter(rate, burst, start, before), rate, burst, start, Total(before), Clock(before, start), c.n,
        c.now);
    }
  }

  /** Release times never go backwards. */
  lemma {:induction false} ReleasesInOrder(rate: real, burst: real, start: real, calls: seq<Call>, i: nat, j: nat)
    requires rate > 0.0 && burst >= 0.0 && Monotone(calls, start) && i <= j < |calls|
    ensures Release(rate, burst, start, calls, i) <= Release(rate, burst, start, calls, j)
    decreases j - i
  {
    if i < j {
      ReleasesInOrder(rate, burst, start, calls, i, j - 1);
      RunIsSane(rate, burst, start, calls[..j + 1]);
      assert calls[..j + 1][..j] == calls[..j];
    }
  }

  lemma {:induction false} ReleasedAtMostTotal(rate: real, burst: real, start: real, calls: seq<Call>, t: real)
    requires rate > 0.0
    ensures ReleasedBy(rate, burst, start, calls, t) <= Total(calls)
  {
    if calls != [] {
      ReleasedAtMostTotal(rate, burst, start, calls[..|calls| - 1], t);
    }
  }

  lemma Later(b: Bucket, rate: real, burst: real, start: real, total: nat, t: real)
    requires rate > 0.0 && b.tokens >= 0.0 && b.last <= t && total as real + b.tokens <= burst + rate * (b.last - start)
    ensures total as real <= burst + rate * (t - start)
  {
    Distribute(rate, start, b.last, t);
    MulNonNegative(t - b.last, rate);
  }

  /** Over any run, the bytes released by any time t are at most burst + rate * (t - start). */
  lemma {:induction false} BudgetKept(rate: real, burst: real, start: real, calls: seq<Call>, t: real)
    requires rate > 0.0 && burst >= 0.0 && Monotone(calls, start) && start <= t
    ensures ReleasedBy(rate, burst, start, calls, t) as real <= burst + rate * (t - start)
  {
    hide After;
    var b := BucketAfter(rate, burst, start, calls);
    if calls == [] {
      MulNonNegative(t - start, rate);
    } else if b.last <= t {
      RunIsSane(rate, burst, start, calls);
      ReleasedAtMostTotal(rate, burst, start, calls, t);
      Later(b, rate, burst, start, Total(calls), t);
    } else {
      BudgetKept(rate, burst, start, calls[..|calls| - 1], t);
    }
  }

  /** The pacer, driven through any run, releases its writes at just those times. */
  method Run(rate: real, burstBytes: real, start: real, calls: seq<Call>) returns (releases: seq<real>)
    requires rate > 0.0
    ensures var burst := if burstBytes <= 0.0 then 65536.0 else burstBytes;
            |releases| == |calls| && forall i :: 0 <= i < |calls| ==>
              releases[i] == Release(rate, burst, start, calls, i)
  {
    var p := new PacerWriter(rate, burstBytes, start);
    releases := [];
    for i := 0 to |calls|
      invariant p.rate == rate && p.burst == if burstBytes <= 0.0 then 65536.0 else burstBytes
      invariant fresh(p) && Bucket(p.tokens, p.last) == BucketAfter(rate, p.burst, start, calls[..i])
      invariant |releases| == i && forall j :: 0 <= j < i ==> releases[j] == Release(rate, p.burst, start, calls, j)
    {
      assert calls[..i + 1][..i] == calls[..i];
      var r := p.Write(calls[i].n, calls[i].now);
      releases := releases + [r];
    }
  }
}
