/** Byte strings and the big-endian integers of the wire formats. */
module Bytes {
  type u8 = x: int | 0 <= x < 0x100
  type u16 = x: int | 0 <= x < 0x1_0000
  type u32 = x: int | 0 <= x < 0x1_0000_0000
  type u64 = x: int | 0 <= x < 0x1_0000_0000_0000_0000
  type i64 = x: int | -0x8000_0000_0000_0000 <= x < 0x8000_0000_0000_0000
  type Bytes = seq<u8>

  /** The longest field that a 16-bit length can name. */
  const MAX_FIELD := 65535
  const MAX_U64: u64 := 0xFFFF_FFFF_FFFF_FFFF

  /** 256 to the power `k`. */
  function Pow256(k: nat): (p: nat)
    ensures p >= 1
  {
    if k == 0 then 1 else 256 * Pow256(k - 1)
  }

  /** The low `k` bytes of `x`, most significant first (binary.BigEndian.Put*). */
  function Be(x: nat, k: nat): (b: Bytes)
    ensures |b| == k
  {
    if k == 0 then [] else Be(x / 256, k - 1) + [x % 256]
  }

  /** The number a big-endian byte string denotes (binary.BigEndian.Uint*). */
  function Num(b: Bytes): (x: nat)
    ensures x < Pow256(|b|)
  {
    if b == [] then 0 else 256 * Num(b[..|b| - 1]) + b[|b| - 1]
  }

  /** Reading back a number that fits its field. */
  lemma {:induction false} NumOfBe(x: nat, k: nat)
    requires x < Pow256(k)
    ensures Num(Be(x, k)) == x
  {
    if k > 0 {
      NumOfBe(x / 256, k - 1);
      assert Be(x, k)[..k - 1] == Be(x / 256, k - 1);
    }
  }

  /** Every byte string is the encoding of the number it denotes. */
  lemma {:induction false} BeOfNum(b: Bytes)
    ensures Be(Num(b), |b|) == b
  {
    if b != [] {
      BeOfNum(b[..|b| - 1]);
    }
  }

  lemma Widths()
    ensures Pow256(1) == 0x100 && Pow256(2) == 0x1_0000 && Pow256(4) == 0x1_0000_0000
    ensures Pow256(8) == 0x1_0000_0000_0000_0000
  {
    assert Pow256(3) == 0x100_0000;
    assert Pow256(6) == 0x1_0000_0000_0000;
  }

  /** Fixed-width fields are injective on the values that fit them. */
  lemma BeInjective(x: nat, y: nat, k: nat)
    requires x < Pow256(k) && y < Pow256(k)
    requires Be(x, k) == Be(y, k)
    ensures x == y
  {
    NumOfBe(x, k);
    NumOfBe(y, k);
  }

  /** Two's complement: uint64(t) and int64(u). */
  function U64OfI64(t: i64): (u: u64) {
    if t < 0 then t + 0x1_0000_0000_0000_0000 else t
  }

  function I64OfU64(u: u64): (t: i64)
    ensures U64OfI64(t) == u
  {
    if u < 0x8000_0000_0000_0000 then u else u - 0x1_0000_0000_0000_0000
  }

  lemma MulMonotone(a: int, b: int, m: nat)
    requires a <= b
    ensures a * m <= b * m && (a >= 0 ==> a * m >= 0)
  {
  }

  /** Slicing inside the first part of a concatenation. */
  lemma SliceLeft(a: Bytes, b: Bytes, i: nat, j: nat)
    requires i <= j <= |a|
    ensures (a + b)[i..j] == a[i..j]
  {
  }

  lemma SliceOfSlice(s: Bytes, lo: nat, hi: nat, i: nat, j: nat)
    requires lo <= hi <= |s| && i <= j <= hi - lo
    ensures s[lo..hi][i..j] == s[lo + i..lo + j]
  {
    var a, b := s[lo..hi][i..j], s[lo + i..lo + j];
    assert |a| == |b| && forall k :: 0 <= k < |a| ==> a[k] == b[k];
  }

  lemma DropLeft(a: Bytes, b: Bytes)
    ensures (a + b)[|a|..] == b
  {
  }

  /** The number in a fixed-width field between other bytes. */
  lemma NumBetween(a: Bytes, x: nat, k: nat, b: Bytes)
    requires x < Pow256(k)
    ensures Num((a + Be(x, k) + b)[|a|..|a| + k]) == x
  {
    NumOfBe(x, k);
    assert (a + Be(x, k) + b)[|a|..|a| + k] == Be(x, k);
  }

  lemma SplitAssoc(a: Bytes, n: nat, b: Bytes)
    requires n <= |a|
    ensures a + b == a[..n] + (a[n..] + b)
  {
  }

  /** The concatenation of a list of byte strings. */
  function Concat(bs: seq<Bytes>): (r: Bytes) {
    if bs == [] then [] else bs[0] + Concat(bs[1..])
  }

  lemma {:induction false} ConcatAppend(xs: seq<Bytes>, ys: seq<Bytes>)
    ensures Concat(xs + ys) == Concat(xs) + Concat(ys)
  {
    if xs == [] {
      assert xs + ys == ys;
    } else {
      assert (xs + ys)[0] == xs[0] && (xs + ys)[1..] == xs[1..] + ys;
      ConcatAppend(xs[1..], ys);
    }
  }

  lemma ConcatSnoc(xs: seq<Bytes>, y: Bytes)
    ensures Concat(xs + [y]) == Concat(xs) + y
  {
    ConcatAppend(xs, [y]);
    assert Concat([y]) == y + Concat([]);
  }

  /** Copy `src` into `dst` from index `at` on. */
  method CopyInto(dst: array<u8>, at: nat, src: Bytes)
    requires at + |src| <= dst.Length
    modifies dst
    ensures dst[..at] == old(dst[..at])
    ensures dst[at..at + |src|] == src
    ensures dst[at + |src|..] == old(dst[at + |src|..])
  {
    for i := 0 to |src|
      invariant dst[..at] == old(dst[..at])
      invariant forall j :: 0 <= j < i ==> dst[at + j] == src[j]
      invariant dst[at + |src|..] == old(dst[at + |src|..])
    {
      dst[at + i] := src[i];
    }
  }

  /** Copy `src` to the current offset, behind the bytes already in place. */
  method CopyBehind(dst: array<u8>, off: nat, ghost done: Bytes, src: Bytes) returns (next: nat)
    requires |done| == off && off + |src| <= dst.Length && dst[..off] == done
    modifies dst
    ensures next == off + |src| && dst[..next] == done + src
  {
    CopyInto(dst, off, src);
    next := off + |src|;
    assert dst[..next] == dst[..off] + dst[off..next];
  }
}

/** Results of operations that can fail. */
module Outcomes {
  datatype Option<+T> = None | Some(value: T)

  datatype Result<+T, +E> = Ok(value: T) | Err(error: E) {
    predicate IsFailure() {
      Err?
    }

    function PropagateFailure<U>(): Result<U, E>
      requires Err?
    {
      Err(error)
    }

    function Extract(): T
      requires Ok?
    {
      value
    }
  }
}
