/** C's bit operations on unsigned numbers, written out bit by bit. */
module Bits {

  predicate Bit(m: nat, i: nat) {
    if i == 0 then m % 2 == 1 else Bit(m / 2, i - 1)
  }

  // a & b
  function And(a: nat, b: nat): nat {
    if a == 0 || b == 0 then 0 else 2 * And(a / 2, b / 2) + if a % 2 == 1 && b % 2 == 1 then 1 else 0
  }

  // a | b
  function Or(a: nat, b: nat): nat
    decreases a + b
  {
    if a == 0 && b == 0 then 0 else 2 * Or(a / 2, b / 2) + if a % 2 == 1 || b % 2 == 1 then 1 else 0
  }

  // a << n, in unbounded arithmetic
  function Shl(a: nat, n: nat): nat {
    if n == 0 then a else 2 * Shl(a, n - 1)
  }

  // a >> n
  function Shr(a: nat, n: nat): nat {
    if n == 0 then a else Shr(a / 2, n - 1)
  }

  // a cut to w bits
  function Cut(a: nat, w: nat): nat {
    if w == 0 then 0 else 2 * Cut(a / 2, w - 1) + a % 2
  }

  function Pow2(n: nat): nat {
    if n == 0 then 1 else 2 * Pow2(n - 1)
  }

  lemma {:induction false} ZeroBits(i: nat)
    ensures !Bit(0, i)
  {
    if i > 0 {
      ZeroBits(i - 1);
    }
  }

  lemma {:induction false} AndBits(a: nat, b: nat, i: nat)
    ensures Bit(And(a, b), i) <==> Bit(a, i) && Bit(b, i)
    decreases i
  {
    if a == 0 || b == 0 {
      ZeroBits(i);
    } else if i > 0 {
      AndBits(a / 2, b / 2, i - 1);
    }
  }

  lemma {:induction false} OrBits(a: nat, b: nat, i: nat)
    ensures Bit(Or(a, b), i) <==> Bit(a, i) || Bit(b, i)
    decreases i
  {
    if a == 0 && b == 0 {
      ZeroBits(i);
    } else if i > 0 {
      OrBits(a / 2, b / 2, i - 1);
    }
  }

  lemma {:induction false} ShlBits(a: nat, n: nat, i: nat)
    ensures Bit(Shl(a, n), i) <==> n <= i && Bit(a, i - n)
    decreases n
  {
    if n > 0 && i > 0 {
      ShlBits(a, n - 1, i - 1);
    }
  }

  lemma {:induction false} ShrBits(a: nat, n: nat, i: nat)
    ensures Bit(Shr(a, n), i) <==> Bit(a, i + n)
    decreases n
  {
    if n > 0 {
      ShrBits(a / 2, n - 1, i);
    }
  }

  lemma {:induction false} CutBits(a: nat, w: nat, i: nat)
    ensures Bit(Cut(a, w), i) <==> i < w && Bit(a, i)
    decreases w
  {
    if w == 0 {
      ZeroBits(i);
    } else if i > 0 {
      CutBits(a / 2, w - 1, i - 1);
    }
  }

  lemma {:induction false} SameBits(m: nat, n: nat)
    requires forall i: nat :: Bit(m, i) <==> Bit(n, i)
    ensures m == n
    decreases m + n
  {
    assert Bit(m, 0) <==> Bit(n, 0);
    if m > 0 || n > 0 {
      forall i: nat
        ensures Bit(m / 2, i) <==> Bit(n / 2, i)
      {
        assert Bit(m, i + 1) <==> Bit(n, i + 1);
      }
      SameBits(m / 2, n / 2);
    }
  }

  lemma {:induction false} BitBound(m: nat, k: nat, i: nat)
    requires m < Pow2(k) && Bit(m, i)
    ensures i < k
  {
    if k == 0 {
      ZeroBits(i);
    } else if i > 0 {
      BitBound(m / 2, k - 1, i - 1);
    }
  }

  lemma Pow32()
    ensures Pow2(32) == 0x1_0000_0000
  {
    assert Pow2(8) == 256;
    assert Pow2(16) == 65536;
    assert Pow2(24) == 0x100_0000;
  }
}
