/**
 * Unsigned 64-bit machine words (the `size_t` and `uintptr_t` of the
 * allocator), the two bitwise operations the allocator uses (`&` and `~`),
 * and the arithmetic facts that turn its mask expressions into division.
 *
 * `&` is defined on natural numbers bit by bit, least significant bit first,
 * so that each fact about a mask is an induction over the bits rather than a
 * bit-vector problem.
 */
module MachineWord {

  /** 2^64: one more than the largest address or size. */
  const WORD: nat := 0x1_0000_0000_0000_0000

  type Word = x: int | 0 <= x < WORD

  /** Reduction modulo 2^64: what C's unsigned arithmetic does to a result. */
  function Wrap(x: int): (w: Word)
    ensures 0 <= x < WORD ==> w == x
    ensures x < 0 && 0 <= x + WORD ==> w == x + WORD
    ensures WORD <= x < 2 * WORD ==> w == x - WORD
  {
    x % WORD
  }

  /** Bitwise AND of two naturals. */
  function And(x: nat, y: nat): (r: nat)
    ensures r <= x && r <= y
    decreases x
  {
    if x == 0 || y == 0 then 0
    else 2 * And(x / 2, y / 2) + (x % 2) * (y % 2)
  }

  /** Bitwise complement of a 64-bit word. */
  function Not(x: Word): Word {
    WORD - 1 - x
  }

  /** n is 2^k for some k >= 0. */
  predicate IsPow2(n: nat)
    decreases n
  {
    n == 1 || (n >= 2 && n % 2 == 0 && IsPow2(n / 2))
  }

  /** Powers of two are closed under multiplication. */
  lemma {:induction false} Pow2Mul(a: nat, b: nat)
    requires IsPow2(a) && IsPow2(b)
    ensures IsPow2(a * b)
    decreases a
  {
    if a >= 2 {
      Pow2Mul(a / 2, b);
      assert a * b == 2 * ((a / 2) * b);
    }
  }

  lemma WordIsPow2()
    ensures IsPow2(WORD)
  {
    assert IsPow2(16);
    Pow2Mul(16, 16);
    Pow2Mul(0x100, 0x100);
    Pow2Mul(0x1_0000, 0x1_0000);
    Pow2Mul(0x1_0000_0000, 0x1_0000_0000);
  }

  /** One step of `And`: the low bit and the rest, also when an operand is 0. */
  lemma AndStep(x: nat, y: nat)
    ensures And(x, y) == 2 * And(x / 2, y / 2) + (x % 2) * (y % 2)
  {
  }

  lemma {:induction false} AndSelf(x: nat)
    ensures And(x, x) == x
    decreases x
  {
    if x != 0 {
      AndSelf(x / 2);
    }
  }

  /** Division with remainder has one answer. */
  lemma DivModUnique(x: int, a: int, m: int, s: int)
    requires a > 0 && 0 <= s < a && x == a * m + s
    ensures x / a == m && x % a == s
  {
    var q, r := x / a, x % a;
    assert x == a * q + r;
    if m > q {
      MulAtLeast(a, m - q);
    } else if m < q {
      MulAtLeast(a, q - m);
    }
  }

  lemma {:induction false} MulAtLeast(a: int, k: int)
    requires a > 0 && k >= 1
    ensures a * k >= a
    decreases k
  {
    if k > 1 {
      MulAtLeast(a, k - 1);
      assert a * k == a * (k - 1) + a;
    }
  }

  /** Dividing by 2 and then by h is dividing by 2h. */
  lemma DivHalve(x: nat, a: nat)
    requires a >= 2 && a % 2 == 0
    ensures x / a == (x / 2) / (a / 2)
  {
    var h := a / 2;
    var q := x / 2;
    var m, r := q / h, q % h;
    assert q == h * m + r;
    assert x == a * m + (2 * r + x % 2);
    DivModUnique(x, a, m, 2 * r + x % 2);
  }

  /** A power of two at least 2 is even, and halving keeps it a power of two. */
  lemma Pow2Halve(n: nat)
    requires IsPow2(n) && n >= 2
    ensures n % 2 == 0 && IsPow2(n / 2) && n == 2 * (n / 2)
  {
  }

  /**
   * Masking with all ones below a power of two n keeps every x < n:
   * x & (n - 1) == x.
   */
  lemma {:induction false} AndLowMask(x: nat, n: nat)
    requires IsPow2(n) && x < n
    ensures And(x, n - 1) == x
    decreases n
  {
    if n > 1 {
      Pow2Halve(n);
      AndStep(x, n - 1);
      assert (n - 1) / 2 == n / 2 - 1 && (n - 1) % 2 == 1;
      AndLowMask(x / 2, n / 2);
    }
  }

  /** AND with an even number: the low bit is 0 and the rest is shifted. */
  lemma AndEvenStep(x: nat, y: nat)
    requires y % 2 == 0
    ensures And(x, y) == 2 * And(x / 2, y / 2)
  {
    AndStep(x, y);
  }

  lemma DoubleMultiple(k: int, a: int)
    requires a % 2 == 0
    ensures 2 * (k * (a / 2)) == k * a
  {
  }

  /**
   * Masking with the bits of n - 1 at and above a power of two a clears the
   * low bits: x & (n - a) == (x / a) * a for powers of two a <= n and x < n.
   */
  lemma {:induction false} AndHighMask(x: nat, n: nat, a: nat)
    requires IsPow2(n) && IsPow2(a) && a <= n && x < n
    ensures And(x, n - a) == (x / a) * a
    decreases a
  {
    if a == 1 {
      AndLowMask(x, n);
    } else {
      Pow2Halve(a);
      Pow2Halve(n);
      AndEvenStep(x, n - a);
      assert (n - a) / 2 == n / 2 - a / 2;
      AndHighMask(x / 2, n / 2, a / 2);
      DivHalve(x, a);
      DoubleMultiple((x / 2) / (a / 2), a);
    }
  }

  /**
   * The power-of-two test `x & (x - 1) == 0` on a positive natural:
   * it holds exactly for the powers of two.
   */
  lemma {:induction false} Pow2Test(x: nat)
    requires x >= 1
    ensures And(x, x - 1) == 0 <==> IsPow2(x)
    decreases x
  {
    if x >= 2 {
      AndStep(x, x - 1);
      if x % 2 == 0 {
        assert (x - 1) / 2 == x / 2 - 1;
        Pow2Test(x / 2);
      } else {
        assert (x - 1) / 2 == x / 2;
        AndSelf(x / 2);
      }
    }
  }

  /**
   * The same test on a 64-bit word, where `x - 1` wraps: it accepts the
   * powers of two and also 0, because 0 & 0xFFFF_FFFF_FFFF_FFFF == 0.
   */
  lemma AlignmentTest(x: Word)
    ensures And(x, Wrap(x - 1)) == 0 <==> x == 0 || IsPow2(x)
  {
    if x >= 1 {
      Pow2Test(x);
    } else {
      assert !IsPow2(x);
    }
  }

  /** A smaller power of two divides a larger one. */
  lemma {:induction false} Pow2Divides(a: nat, p: nat)
    requires IsPow2(a) && IsPow2(p) && a <= p
    ensures p % a == 0
    decreases a
  {
    if a >= 2 {
      Pow2Halve(a);
      Pow2Halve(p);
      Pow2Divides(a / 2, p / 2);
      var k := (p / 2) / (a / 2);
      assert p / 2 == (a / 2) * k;
      DivModUnique(p, a, k, 0);
    }
  }

  /** Divisibility is transitive. */
  lemma MultipleOfMultiple(x: int, p: int, a: int)
    requires a > 0 && p > 0 && x % p == 0 && p % a == 0
    ensures x % a == 0
  {
    var i, j := x / p, p / a;
    assert x == p * i && p == a * j;
    assert x == a * (j * i);
    DivModUnique(x, a, j * i, 0);
  }

  /** A multiple of a, rounded down to a multiple of a, is itself. */
  lemma RoundDownMultiple(x: int, a: int)
    requires a > 0
    ensures (x / a) * a <= x < (x / a) * a + a
    ensures ((x / a) * a) % a == 0
    ensures x % a == 0 <==> (x / a) * a == x
  {
    DivModUnique((x / a) * a, a, x / a, 0);
  }

  /**
   * The align-up idiom `(x + a - 1) & ~(a - 1)` on 64-bit words, for a power
   * of two a and no wrap in x + a - 1, is x rounded up to a multiple of a.
   */
  lemma AlignUpMask(x: Word, a: Word)
    requires IsPow2(a) && x + a - 1 < WORD
    ensures And(Wrap(x + a - 1), Not(Wrap(a - 1))) == ((x + a - 1) / a) * a
  {
    WordIsPow2();
    assert Wrap(x + a - 1) == x + a - 1;
    assert Not(Wrap(a - 1)) == WORD - a;
    AndHighMask(x + a - 1, WORD, a);
  }

  /** What "rounded up to a multiple of a" means: the least multiple of a at or above x. */
  lemma AlignUpBounds(x: int, a: int)
    requires a > 0
    ensures var r := ((x + a - 1) / a) * a;
      r % a == 0 && x <= r < x + a && (r == x <==> x % a == 0)
  {
    var v := x + a - 1;
    RoundDownMultiple(v, a);
    if x % a == 0 {
      DivModUnique(v, a, x / a, a - 1);
    }
  }

  /**
   * The page mask `x & ~(p - 1)` for a power of two p is x rounded down to a
   * multiple of p.
   */
  lemma PageMask(x: Word, p: Word)
    requires IsPow2(p)
    ensures And(x, Not(Wrap(p - 1))) == (x / p) * p
  {
    WordIsPow2();
    AndHighMask(x, WORD, p);
  }
}
