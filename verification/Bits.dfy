/** Bitwise operators on unsigned words, written out bit by bit. */
module Bits {
  /** Bit `b` of `x`, counting from the least significant. */
  predicate Bit(x: nat, b: nat) {
    if b == 0 then x % 2 == 1 else Bit(x / 2, b - 1)
  }

  /** `1 << b` */
  function One(b: nat): (m: nat)
    ensures m >= 1
  {
    if b == 0 then 1 else 2 * One(b - 1)
  }

  /** `x & y` */
  function And(x: nat, y: nat): nat {
    if x == 0 || y == 0 then 0 else (x % 2) * (y % 2) + 2 * And(x / 2, y / 2)
  }

  /** `x | y` */
  function Or(x: nat, y: nat): nat {
    if x == 0 && y == 0 then 0
    else (if x % 2 == 1 || y % 2 == 1 then 1 else 0) + 2 * Or(x / 2, y / 2)
  }

  /** `x &^ y` */
  function AndNot(x: nat, y: nat): nat {
    if x == 0 then 0
    else (if x % 2 == 1 && y % 2 == 0 then 1 else 0) + 2 * AndNot(x / 2, y / 2)
  }

  lemma {:induction false} BitZero(b: nat)
    ensures !Bit(0, b)
  {
    if b > 0 { BitZero(b - 1); }
  }

  lemma {:induction false} BitOne(b: nat, c: nat)
    ensures Bit(One(b), c) <==> b == c
  {
    if b == 0 {
      if c > 0 { BitZero(c - 1); }
    } else if c > 0 {
      BitOne(b - 1, c - 1);
    }
  }

  lemma {:induction false} BitAnd(x: nat, y: nat, b: nat)
    ensures Bit(And(x, y), b) <==> Bit(x, b) && Bit(y, b)
  {
    if x == 0 || y == 0 {
      BitZero(b);
    } else if b > 0 {
      BitAnd(x / 2, y / 2, b - 1);
    }
  }

  lemma {:induction false} BitOr(x: nat, y: nat, b: nat)
    ensures Bit(Or(x, y), b) <==> Bit(x, b) || Bit(y, b)
  {
    if x == 0 && y == 0 {
      BitZero(b);
    } else if b > 0 {
      BitOr(x / 2, y / 2, b - 1);
    }
  }

  lemma {:induction false} BitAndNot(x: nat, y: nat, b: nat)
    ensures Bit(AndNot(x, y), b) <==> Bit(x, b) && !Bit(y, b)
  {
    if x == 0 {
      BitZero(b);
    } else if b > 0 {
      BitAndNot(x / 2, y / 2, b - 1);
    }
  }

  /** `x & (1 << b) != 0` tests bit b. */
  lemma {:induction false} TestBit(x: nat, b: nat)
    ensures And(x, One(b)) != 0 <==> Bit(x, b)
  {
    if x == 0 {
      BitZero(b);
    } else if b > 0 {
      TestBit(x / 2, b - 1);
    } else {
      assert And(x / 2, 0) == 0;
    }
  }

  /** Words with the same bits are equal. */
  lemma {:induction false} Extensional(x: nat, y: nat)
    requires forall b: nat :: Bit(x, b) == Bit(y, b)
    ensures x == y
  {
    if x != 0 || y != 0 {
      assert Bit(x, 0) == Bit(y, 0);
      forall b: nat
        ensures Bit(x / 2, b) == Bit(y / 2, b)
      {
        assert Bit(x, b + 1) == Bit(y, b + 1);
      }
      Extensional(x / 2, y / 2);
    }
  }

  /** x has every bit of m. */
  ghost predicate Covers(x: nat, m: nat) {
    forall b: nat :: Bit(m, b) ==> Bit(x, b)
  }

  /** `x & m == m` says that x has every bit of m. */
  lemma MaskedIff(x: nat, m: nat)
    ensures And(x, m) == m <==> Covers(x, m)
  {
    if And(x, m) == m {
      forall b: nat | Bit(m, b)
        ensures Bit(x, b)
      {
        BitAnd(x, m, b);
      }
    }
    if Covers(x, m) {
      forall b: nat
        ensures Bit(And(x, m), b) == Bit(m, b)
      {
        BitAnd(x, m, b);
      }
      Extensional(And(x, m), m);
    }
  }

  /** Intersecting with c keeps every required bit that c itself has. */
  lemma KeepRequired(x: nat, c: nat, m: nat)
    requires And(x, m) == m && And(c, m) == m
    ensures And(And(x, c), m) == m
  {
    MaskedIff(x, m);
    MaskedIff(c, m);
    forall b: nat
      ensures Bit(m, b) ==> Bit(And(x, c), b)
    {
      BitAnd(x, c, b);
    }
    MaskedIff(And(x, c), m);
  }

  // ---- bits and division -------------------------------------------------------------------------

  lemma DivUnique(x: nat, d: nat, q: nat)
    requires q * d <= x < (q + 1) * d
    ensures d > 0 && x / d == q
  {
    var g := x / d;
    assert x == d * g + x % d;
    assert x < (g + 1) * d;
    if g < q {
      MulLe(g + 1, q, d);
    } else if g > q {
      MulLe(q + 1, g, d);
    }
  }

  lemma MulLe(a: nat, b: nat, m: nat)
    requires a <= b
    ensures a * m <= b * m
  {
  }

  lemma DivTwice(x: nat, m: nat)
    requires m >= 1
    ensures x / (2 * m) == (x / 2) / m
  {
    var h := x / 2;
    var q := h / m;
    assert h == m * q + h % m;
    assert q * (2 * m) == 2 * (m * q) && (q + 1) * (2 * m) == 2 * (m * q) + 2 * m;
    DivUnique(x, 2 * m, q);
  }

  /** `x >> s` */
  function Shift(x: nat, s: nat): nat {
    if s == 0 then x else Shift(x / 2, s - 1)
  }

  lemma {:induction false} ShiftIsDivision(x: nat, s: nat)
    ensures Shift(x, s) == x / One(s)
  {
    if s > 0 {
      ShiftIsDivision(x / 2, s - 1);
      DivTwice(x, One(s - 1));
    }
  }

  /** Shifting drops low bits. */
  lemma {:induction false} BitShift(x: nat, s: nat, b: nat)
    ensures Bit(Shift(x, s), b) <==> Bit(x, s + b)
  {
    if s > 0 {
      BitShift(x / 2, s - 1, b);
    }
  }

  /** A number below a power of two has no bits from there on. */
  lemma {:induction false} HighBits(x: nat, w: nat, b: nat)
    requires x < One(w) && w <= b
    ensures !Bit(x, b)
  {
    if w == 0 {
      BitZero(b);
    } else {
      HighBits(x / 2, w - 1, b - 1);
    }
  }

  /** The bits of `x` stand below those of `n` in `n * 2^m + x`. */
  lemma {:induction false} BitJoin(n: nat, x: nat, m: nat, b: nat)
    requires x < One(m)
    ensures Bit(n * One(m) + x, b) <==> if b < m then Bit(x, b) else Bit(n, b - m)
  {
    if m > 0 {
      var y := n * One(m) + x;
      assert n * One(m) == 2 * (n * One(m - 1));
      assert y / 2 == n * One(m - 1) + x / 2 && y % 2 == x % 2;
      if b > 0 {
        BitJoin(n, x / 2, m - 1, b - 1);
      }
    }
  }

  /** The same bits from `s` up to `w`. */
  ghost predicate Agree(x: nat, y: nat, s: nat, w: nat) {
    forall b: nat :: s <= b < w ==> Bit(x, b) == Bit(y, b)
  }

  /** Two numbers below 2^w agree from bit `s` on exactly when shifting by `s` makes them equal. */
  lemma SameAbove(x: nat, y: nat, w: nat, s: nat)
    requires x < One(w) && y < One(w) && s <= w
    ensures Shift(x, s) == Shift(y, s) <==> Agree(x, y, s, w)
  {
    hide Bit, One;
    if Shift(x, s) == Shift(y, s) {
      forall b: nat | s <= b < w
        ensures Bit(x, b) == Bit(y, b)
      {
        BitShift(x, s, b - s);
        BitShift(y, s, b - s);
      }
    }
    if Agree(x, y, s, w) {
      forall b: nat
        ensures Bit(Shift(x, s), b) == Bit(Shift(y, s), b)
      {
        BitShift(x, s, b);
        BitShift(y, s, b);
        if s + b >= w {
          HighBits(x, w, s + b);
          HighBits(y, w, s + b);
        } else {
          assert Bit(x, s + b) == Bit(y, s + b);
        }
      }
      Extensional(Shift(x, s), Shift(y, s));
    }
  }
}
