/** Powers of two, and the bitwise operations on natural numbers. */
module Bits {
  import opened Products

  const U64: nat := 0x1_0000_0000_0000_0000

  function Pow2(i: nat): (p: nat)
    ensures p > 0
  {
    if i == 0 then 1 else 2 * Pow2(i - 1)
  }

  lemma {:induction false} Pow2Monotone(m: nat, n: nat)
    requires m <= n
    ensures Pow2(m) <= Pow2(n)
  {
    if m < n {
      Pow2Monotone(m, n - 1);
    }
  }

  lemma {:induction false} Pow2Add(m: nat, n: nat)
    ensures Pow2(m + n) == Pow2(m) * Pow2(n)
    decreases m
  {
    if m > 0 {
      Pow2Add(m - 1, n);
      Associates(2, Pow2(m - 1), Pow2(n));
    }
  }

  /** The powers that the page table uses. */
  lemma {:induction false} Pow2Values()
    ensures Pow2(9) == 512 && Pow2(12) == 4096 && Pow2(21) == 0x20_0000 && Pow2(30) == 0x4000_0000
    ensures Pow2(39) == 0x80_0000_0000 && Pow2(36) == 0x10_0000_0000 && Pow2(48) == 0x1_0000_0000_0000
            && Pow2(16) == 0x1_0000
  {
    assert Pow2(3) == 8;
    Pow2Add(3, 3);
    Pow2Add(3, 6);
    Pow2Add(3, 9);
    Pow2Add(9, 12);
    Pow2Add(9, 21);
    Pow2Add(9, 30);
    Pow2Add(6, 30);
    Pow2Add(12, 36);
    assert Pow2(4) == 16;
    Pow2Add(4, 12);
  }

  function And(a: nat, b: nat): nat
  {
    if a == 0 then 0 else (if a % 2 == 1 && b % 2 == 1 then 1 else 0) + 2 * And(a / 2, b / 2)
  }

  function Or(a: nat, b: nat): (r: nat)
    ensures r >= a && r >= b
    decreases a + b
  {
    if a == 0 && b == 0 then 0 else (if a % 2 == 1 || b % 2 == 1 then 1 else 0) + 2 * Or(a / 2, b / 2)
  }

  lemma {:induction false} AndZero(a: nat)
    ensures And(a, 0) == 0
  {
    if a > 0 {
      AndZero(a / 2);
    }
  }

  lemma {:induction false} RemainderByBits(v: nat, m: nat)
    requires m > 0
    ensures v % (2 * m) == v % 2 + 2 * (v / 2 % m)
  {
    var h, r := v / 2, v % 2;
    Divides(h, m);
    TwoDigits(2, m, h / m, h % m, r);
    QuotientIs(v, 2 * m, h / m, 2 * (h % m) + r);
  }

  // Shifts and low parts, bit by bit.

  function Shr(v: nat, j: nat): nat
    decreases j
  {
    if j == 0 then v else Shr(v / 2, j - 1)
  }

  function Shl(v: nat, j: nat): nat
  {
    if j == 0 then v else 2 * Shl(v, j - 1)
  }

  function Low(v: nat, k: nat): (r: nat)
    decreases k
  {
    if k == 0 then 0 else v % 2 + 2 * Low(v / 2, k - 1)
  }

  lemma {:induction false} ShrDivides(v: nat, j: nat)
    ensures Shr(v, j) == v / Pow2(j)
    decreases j
  {
    if j > 0 {
      ShrDivides(v / 2, j - 1);
      DivideTwice(v, 2, Pow2(j - 1));
    }
  }

  lemma {:induction false} ShlMultiplies(v: nat, j: nat)
    ensures Shl(v, j) == v * Pow2(j)
  {
    if j > 0 {
      ShlMultiplies(v, j - 1);
      assert 2 * (v * Pow2(j - 1)) == v * (2 * Pow2(j - 1));
    }
  }

  lemma {:induction false} LowIsRemainder(v: nat, k: nat)
    ensures Low(v, k) == v % Pow2(k)
    decreases k
  {
    if k > 0 {
      LowIsRemainder(v / 2, k - 1);
      RemainderByBits(v, Pow2(k - 1));
    }
  }

  /** Masking the low `k` bits. */
  lemma {:induction false} AndLow(v: nat, k: nat)
    ensures And(v, Pow2(k) - 1) == Low(v, k)
    decreases k
  {
    if k == 0 {
      AndZero(v);
    } else {
      AndLow(v / 2, k - 1);
      LowZero(k - 1);
    }
  }

  lemma {:induction false} LowZero(k: nat)
    ensures Low(0, k) == 0
  {
    if k > 0 {
      LowZero(k - 1);
    }
  }

  /** Masking `k` bits from bit `j` on. */
  lemma {:induction false} AndField(v: nat, j: nat, k: nat)
    ensures And(v, Shl(Pow2(k) - 1, j)) == Shl(Low(Shr(v, j), k), j)
    decreases j
  {
    if j == 0 {
      AndLow(v, k);
    } else {
      AndField(v / 2, j - 1, k);
      AndHalves(v, Shl(Pow2(k) - 1, j));
    }
  }

  lemma {:induction false} AndHalves(a: nat, b: nat)
    ensures And(a, b) == (if a % 2 == 1 && b % 2 == 1 then 1 else 0) + 2 * And(a / 2, b / 2)
  {
  }

  /** Or splits at every bit position. */
  lemma {:induction false} OrSplit(a: nat, b: nat, k: nat)
    ensures Shr(Or(a, b), k) == Or(Shr(a, k), Shr(b, k)) && Low(Or(a, b), k) == Or(Low(a, k), Low(b, k))
    decreases k
  {
    hide Or;
    OrHalves(a, b);
    if k == 0 {
      OrZero(0);
    } else {
      OrSplit(a / 2, b / 2, k - 1);
      OrHalves(Low(a, k), Low(b, k));
    }
  }

  lemma {:induction false} OrHalves(a: nat, b: nat)
    ensures Or(a, b) / 2 == Or(a / 2, b / 2) && Or(a, b) % 2 == if a % 2 == 1 || b % 2 == 1 then 1 else 0
  {
  }

  /** A number is its high part and its low part. */
  lemma {:induction false} Parts(v: nat, k: nat)
    ensures v == Shl(Shr(v, k), k) + Low(v, k) && Low(v, k) < Pow2(k)
    decreases k
  {
    if k > 0 {
      Parts(v / 2, k - 1);
    }
  }

  lemma {:induction false} PartsAre(h: nat, l: nat, k: nat)
    requires l < Pow2(k)
    ensures Shr(Shl(h, k) + l, k) == h && Low(Shl(h, k) + l, k) == l
    decreases k
  {
    if k > 0 {
      PartsAre(h, l / 2, k - 1);
      assert (Shl(h, k) + l) / 2 == Shl(h, k - 1) + l / 2;
    }
  }

  /** Flags below an aligned address are added to it. */
  lemma {:induction false} OrAligned(a: nat, b: nat, k: nat)
    requires Low(a, k) == 0 && b < Pow2(k)
    ensures Or(a, b) == a + b
    decreases k
  {
    if k == 0 {
      OrZero(a);
    } else {
      OrAligned(a / 2, b / 2, k - 1);
    }
  }

  lemma {:induction false} OrZero(a: nat)
    ensures Or(a, 0) == a == Or(0, a)
  {
    if a > 0 {
      OrZero(a / 2);
    }
  }

  lemma {:induction false} OrOnes(k: nat, h: nat)
    requires h < Pow2(k)
    ensures Or(Pow2(k) - 1, h) == Pow2(k) - 1
  {
    if k > 0 {
      OrOnes(k - 1, h / 2);
    }
  }

  lemma {:induction false} OrSmall(a: nat, b: nat, k: nat)
    requires a < Pow2(k) && b < Pow2(k)
    ensures Or(a, b) < Pow2(k)
    decreases k
  {
    if k > 0 {
      OrSmall(a / 2, b / 2, k - 1);
    }
  }

  // Single bits.

  function Bit(n: nat, i: nat): bool
  {
    if i == 0 then n % 2 == 1 else Bit(n / 2, i - 1)
  }

  function WithBit(n: nat, i: nat, v: bool): nat
  {
    if i == 0 then n / 2 * 2 + (if v then 1 else 0) else WithBit(n / 2, i - 1, v) * 2 + n % 2
  }

  lemma {:induction false} BitLaw(n: nat, i: nat, v: bool, j: nat)
    ensures Bit(WithBit(n, i, v), j) == if j == i then v else Bit(n, j)
    decreases i
  {
    if i > 0 && j > 0 {
      BitLaw(n / 2, i - 1, v, j - 1);
    }
  }

  lemma {:induction false} BitWidth(n: nat, i: nat, v: bool, w: nat)
    requires n < Pow2(w) && i < w
    ensures WithBit(n, i, v) < Pow2(w)
    decreases i
  {
    if i > 0 {
      BitWidth(n / 2, i - 1, v, w - 1);
    }
  }
}
