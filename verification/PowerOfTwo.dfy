/** pow2gt of libsubtitle/utils/cJSON.c: the shift-and-or cascade rounds up to a power of two. */
module PowersOfTwo {

  function Pow2(n: nat): (p: nat)
    ensures p > 0
  {
    if n == 0 then 1 else 2 * Pow2(n - 1)
  }

  /** Bit i of x. */
  predicate Bit(x: nat, i: nat)
    decreases i
  {
    if i == 0 then x % 2 == 1 else Bit(x / 2, i - 1)
  }

  /** x >> k on a non-negative word, and x | y. */
  function Shift(x: nat, k: nat): nat
    decreases k
  {
    if k == 0 then x else Shift(x / 2, k - 1)
  }

  function Or(x: nat, y: nat): nat {
    if x == 0 && y == 0 then 0
    else 2 * Or(x / 2, y / 2) + (if x % 2 == 1 || y % 2 == 1 then 1 else 0)
  }

  lemma {:induction false} BitShift(x: nat, k: nat, i: nat)
    ensures Bit(Shift(x, k), i) <==> Bit(x, i + k)
    decreases k
  {
    if k > 0 {
      BitShift(x / 2, k - 1, i);
    }
  }

  lemma OrParts(x: nat, y: nat)
    ensures Or(x, y) / 2 == Or(x / 2, y / 2)
    ensures Or(x, y) % 2 == 1 <==> x % 2 == 1 || y % 2 == 1
  {
  }

  lemma {:induction false} BitOr(x: nat, y: nat, i: nat)
    ensures Bit(Or(x, y), i) <==> Bit(x, i) || Bit(y, i)
    decreases i
  {
    hide Or;
    OrParts(x, y);
    if i > 0 {
      BitOr(x / 2, y / 2, i - 1);
    }
  }

  lemma {:induction false} BitZero(i: nat)
    ensures !Bit(0, i)
  {
    if i > 0 {
      BitZero(i - 1);
    }
  }

  /** Exactly the bits below n are set: the word is one less than a power of two. */
  lemma {:induction false} AllOnes(x: nat, n: nat)
    requires forall i: nat :: Bit(x, i) <==> i < n
    ensures x + 1 == Pow2(n)
    decreases x
  {
    assert Bit(x, 0) <==> n > 0;
    forall i: nat
      ensures Bit(x / 2, i) <==> i < n - 1
    {
      assert Bit(x, i + 1) <==> i + 1 < n;
    }
    if n > 0 {
      AllOnes(x / 2, n - 1);
    } else if x > 0 {
      NoBits(x);
      assert false;
    }
  }

  lemma {:induction false} NoBits(x: nat)
    requires forall i: nat :: !Bit(x, i)
    ensures x == 0
    decreases x
  {
    assert !Bit(x, 0);
    if x > 0 {
      forall i: nat
        ensures !Bit(x / 2, i)
      {
        assert !Bit(x, i + 1);
      }
      NoBits(x / 2);
    }
  }

  /** n is the length of x in bits. */
  predicate BitLength(x: nat, n: nat) {
    x < Pow2(n) && (n > 0 ==> Pow2(n - 1) <= x)
  }

  lemma {:induction false} TopBit(x: nat, n: nat)
    requires BitLength(x, n)
    ensures n > 0 ==> Bit(x, n - 1)
    ensures forall i: nat | i >= n :: !Bit(x, i)
    decreases n
  {
    if n == 0 {
      forall i: nat
        ensures !Bit(0, i)
      {
        BitZero(i);
      }
    } else {
      TopBit(x / 2, n - 1);
      forall i: nat | i >= n
        ensures !Bit(x, i)
      {
        assert !Bit(x / 2, i - 1);
      }
    }
  }

  /** The w bits from the top one down are set, and none above. */
  ghost predicate Smeared(x: nat, n: nat, w: nat) {
    (forall i: nat | i < n :: i + w >= n ==> Bit(x, i)) && (forall i: nat | i >= n :: !Bit(x, i))
  }

  /** One line of the cascade doubles the run of set bits. */
  lemma Smear(x: nat, n: nat, w: nat)
    requires w > 0 && Smeared(x, n, w)
    ensures Smeared(Or(x, Shift(x, w)), n, 2 * w)
  {
    hide Or, Shift, Bit;
    var y := Or(x, Shift(x, w));
    forall i: nat | i < n && i + 2 * w >= n
      ensures Bit(y, i)
    {
      OrShift(x, w, i);
      if i + w < n {
        assert Bit(x, i + w);
      } else {
        assert Bit(x, i);
      }
    }
    forall i: nat | i >= n
      ensures !Bit(y, i)
    {
      OrShift(x, w, i);
      assert !Bit(x, i) && !Bit(x, i + w);
    }
  }

  lemma OrShift(x: nat, w: nat, i: nat)
    ensures Bit(Or(x, Shift(x, w)), i) <==> Bit(x, i) || Bit(x, i + w)
  {
    BitOr(x, Shift(x, w), i);
    BitShift(x, w, i);
  }

  lemma {:induction false} LengthOf(x: nat, k: nat) returns (n: nat)
    requires x < Pow2(k)
    ensures n <= k && BitLength(x, n)
    decreases k
  {
    if k == 0 || Pow2(k - 1) <= x {
      n := k;
    } else {
      n := LengthOf(x, k - 1);
    }
  }

  lemma {:induction false} Pow2Grows(a: nat, b: nat)
    requires a <= b
    ensures Pow2(a) <= Pow2(b)
    decreases b
  {
    if a < b {
      Pow2Grows(a, b - 1);
    }
  }

  /** r is the least power of two that is at least x. */
  ghost predicate RoundsUp(x: int, r: int) {
    x <= r < 2 * x && exists n: nat :: r == Pow2(n)
  }

  const LIMIT := 0x4000_0000

  method Pow2Gt(x: int) returns (r: int)
    requires 0 < x <= LIMIT
    ensures RoundsUp(x, r) && r <= LIMIT
  {
    hide Or, Shift, Smeared, Pow2, BitLength;
    var y := x - 1;
    assert Pow2(30) == LIMIT by { Pow2Of30(); }
    ghost var n := LengthOf(y, 30);
    FirstSmear(y, n);
    Smear(y, n, 1);
    y := Or(y, Shift(y, 1));
    Smear(y, n, 2);
    y := Or(y, Shift(y, 2));
    Smear(y, n, 4);
    y := Or(y, Shift(y, 4));
    Smear(y, n, 8);
    y := Or(y, Shift(y, 8));
    Smear(y, n, 16);
    y := Or(y, Shift(y, 16));
    LastSmear(y, n);
    Rounded(x, n);
    Pow2Grows(n, 30);
    r := y + 1;
  }

  lemma Pow2Of30()
    ensures Pow2(30) == LIMIT
  {
    Doublings(10);
    Doublings(20);
    assert Pow2(0) == 1;
    Doublings(0);
  }

  lemma Doublings(n: nat)
    ensures Pow2(n + 10) == 1024 * Pow2(n)
  {
    assert Pow2(n + 2) == 4 * Pow2(n);
    assert Pow2(n + 4) == 4 * Pow2(n + 2);
    assert Pow2(n + 6) == 4 * Pow2(n + 4);
    assert Pow2(n + 8) == 4 * Pow2(n + 6);
    assert Pow2(n + 10) == 4 * Pow2(n + 8);
  }

  lemma FirstSmear(x: nat, n: nat)
    requires BitLength(x, n)
    ensures Smeared(x, n, 1)
  {
    TopBit(x, n);
  }

  lemma LastSmear(x: nat, n: nat)
    requires n <= 32 && Smeared(x, n, 32)
    ensures x + 1 == Pow2(n)
  {
    hide Bit;
    AllOnes(x, n);
  }

  lemma Rounded(x: nat, n: nat)
    requires x > 0 && BitLength(x - 1, n)
    ensures RoundsUp(x, Pow2(n))
  {
    assert n > 0 ==> Pow2(n) == 2 * Pow2(n - 1);
  }

  /** No smaller power of two would have been enough. */
  lemma LeastPower(x: nat, r: nat, n: nat)
    requires RoundsUp(x, r) && x <= Pow2(n)
    ensures r <= Pow2(n)
  {
    var m: nat :| r == Pow2(m);
    if n < m {
      Pow2Grows(n, m - 1);
    } else {
      Pow2Grows(m, n);
    }
  }
}
