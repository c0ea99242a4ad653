/** The round-up of a requested size, `(size + alignment - 1) & ~(alignment - 1)` on 64-bit
    words (src/ioctl_hook.c:87-89 and 134-135), with the words as natural numbers below 2^64
    and the wrap-around of the addition written out. */
module Align {

  const WORD: nat := 0x1_0000_0000_0000_0000

  function And(x: nat, y: nat): (r: nat)
    decreases x
  {
    if x == 0 || y == 0 then 0
    else 2 * And(x / 2, y / 2) + (if x % 2 == 1 && y % 2 == 1 then 1 else 0)
  }

  /** Complement in 64 bits. */
  function Not(x: nat): (r: nat)
    requires x < WORD
    ensures r < WORD
  {
    WORD - 1 - x
  }

  function Add64(x: nat, y: nat): (r: nat) ensures r < WORD { (x + y) % WORD }

  function Sub64(x: nat, y: nat): (r: nat) ensures r < WORD { (x - y) % WORD }

  function AlignUp(size: nat, alignment: nat): (r: nat)
    requires 0 < alignment < WORD
  {
    And(Sub64(Add64(size, alignment), 1), Not(Sub64(alignment, 1)))
  }

  function Pow2(k: nat): (r: nat) ensures r > 0 {
    if k == 0 then 1 else 2 * Pow2(k - 1)
  }

  ghost predicate IsPow2(a: nat) { exists k: nat :: a == Pow2(k) }

  /** `r` is the least multiple of `a` at or above `size`. */
  ghost predicate LeastMultiple(r: nat, size: nat, a: nat)
    requires a > 0
  {
    r % a == 0 && size <= r && forall m: nat :: m % a == 0 && size <= m ==> r <= m
  }

  // ---------------------------------------------------------------- bit facts

  lemma {:induction false} AndBound(x: nat, y: nat)
    ensures And(x, y) <= y && And(x, y) <= x
    decreases x
  {
    if x != 0 && y != 0 { AndBound(x / 2, y / 2); }
  }

  /** Keeping the bits outside `m` is subtracting the bits inside. */
  lemma {:induction false} AndNot(x: nat, m: nat, n: nat)
    requires x < Pow2(n) && m < Pow2(n)
    ensures And(x, Pow2(n) - 1 - m) == x - And(x, m)
    decreases n
  {
    if n > 0 {
      var p := Pow2(n - 1);
      assert Pow2(n) == 2 * p;
      AndNot(x / 2, m / 2, n - 1);
      AndNotStep(x, m, p);
    }
  }

  lemma AndNotStep(x: nat, m: nat, p: nat)
    requires m < 2 * p && And(x / 2, p - 1 - m / 2) == x / 2 - And(x / 2, m / 2)
    ensures And(x, 2 * p - 1 - m) == x - And(x, m)
  {
    ComplementHalved(p, m);
    AndUnfold(x, 2 * p - 1 - m);
    AndUnfold(x, m);
  }

  lemma ComplementHalved(p: nat, m: nat)
    requires m < 2 * p
    ensures (2 * p - 1 - m) / 2 == p - 1 - m / 2 && (2 * p - 1 - m) % 2 == 1 - m % 2
  {
  }

  lemma AndUnfold(x: nat, y: nat)
    ensures And(x, y) == 2 * And(x / 2, y / 2) + (if x % 2 == 1 && y % 2 == 1 then 1 else 0)
  {
    if y == 0 { AndBound(x / 2, 0); }
  }

  lemma AndLowBits(x: nat, k: nat)
    ensures And(x, Pow2(k) - 1) == x % Pow2(k)
  {
    var q := HighBits(x, k);
    AndBound(x, Pow2(k) - 1);
    ModUnique(x, Pow2(k), q, And(x, Pow2(k) - 1));
  }

  lemma {:induction false} HighBits(x: nat, k: nat) returns (q: nat)
    ensures x == q * Pow2(k) + And(x, Pow2(k) - 1)
    decreases k
  {
    if k == 0 {
      q := x;
    } else {
      q := HighBits(x / 2, k - 1);
      AndDoubled(x, Pow2(k - 1));
      HighBitsStep(x, Pow2(k - 1), q, And(x / 2, Pow2(k - 1) - 1));
    }
  }

  lemma AndDoubled(x: nat, p: nat)
    requires p > 0
    ensures And(x, 2 * p - 1) == 2 * And(x / 2, p - 1) + x % 2
  {
    var y := 2 * p - 1;
    assert y / 2 == p - 1 && y % 2 == 1;
    AndUnfold(x, y);
  }

  lemma HighBitsStep(x: nat, p: nat, q: nat, low: nat)
    requires x / 2 == q * p + low
    ensures x == q * (2 * p) + (2 * low + x % 2)
  {
    assert q * (2 * p) == 2 * (q * p);
  }

  lemma MulStep(p: nat, q: nat, d: nat)
    requires p < q
    ensures p * d + d <= q * d
  {
    var k: nat := q - p - 1;
    assert (p + 1 + k) * d == p * d + d + k * d;
  }

  lemma ModUnique(x: nat, d: nat, q: nat, r: nat)
    requires 0 <= r < d && x == q * d + r
    ensures x % d == r
  {
    var p, m := x / d, x % d;
    assert p * d + m == q * d + r;
    if p < q {
      MulStep(p, q, d);
    } else if q < p {
      MulStep(q, p, d);
    }
  }

  lemma {:induction false} AndSelf(x: nat)
    ensures And(x, x) == x
  {
    if x != 0 { AndSelf(x / 2); }
  }

  lemma WordIsPow2()
    ensures Pow2(64) == WORD
  {
    Squared(2, 4);
    Squared(4, 0x10);
    Squared(8, 0x100);
    Squared(16, 0x1_0000);
    Squared(32, 0x1_0000_0000);
  }

  lemma {:induction false} Pow2Sum(a: nat, b: nat)
    ensures Pow2(a + b) == Pow2(a) * Pow2(b)
  {
    if a > 0 { Pow2Sum(a - 1, b); }
  }

  lemma {:induction false} Squared(k: nat, v: nat)
    requires Pow2(k) == v
    ensures Pow2(2 * k) == v * v
  {
    Pow2Sum(k, k);
  }

  lemma NotMask(x: nat, m: nat)
    requires x < WORD && m < WORD
    ensures And(x, WORD - 1 - m) == x - And(x, m)
  {
    WordIsPow2();
    var n := 64;
    AndNot(x, m, n);
  }

  // ---------------------------------------------------------------- the round-up

  function WrappedSum(size: nat, alignment: nat): (x: nat)
    requires size < WORD && 0 < alignment < WORD
    ensures x < WORD
  {
    var sum := size + alignment - 1;
    if sum < WORD then sum else sum - WORD
  }

  /** Without wrap-around the mask form removes from `size + alignment - 1` its bits inside the
      mask; with wrap-around it does the same to the wrapped sum. */
  lemma MaskForm(size: nat, alignment: nat)
    requires size < WORD && 0 < alignment < WORD
    ensures var x := WrappedSum(size, alignment);
      AlignUp(size, alignment) == x - And(x, alignment - 1)
  {
    var x := WrappedSum(size, alignment);
    assert Sub64(Add64(size, alignment), 1) == x;
    assert Not(Sub64(alignment, 1)) == WORD - 1 - (alignment - 1);
    NotMask(x, alignment - 1);
  }

  /** The check is sound for a size exactly when the round-up does not wrap: for any non-zero
      alignment, power of two or not, the aligned size is at least the size if and only if
      `size + alignment - 1` fits the word. */
  lemma AlignUpCoversIff(size: nat, alignment: nat)
    requires size < WORD && 0 < alignment < WORD
    ensures size <= AlignUp(size, alignment) <==> size + alignment - 1 < WORD
    ensures AlignUp(size, alignment) < WORD
  {
    MaskForm(size, alignment);
    AndBound(WrappedSum(size, alignment), alignment - 1);
  }

  /** For a power-of-two alignment the mask form is the textbook round-up, ... */
  lemma AlignUpRounds(size: nat, alignment: nat)
    requires size < WORD && 0 < alignment < WORD && size + alignment - 1 < WORD
    requires IsPow2(alignment)
    ensures var x := size + alignment - 1; AlignUp(size, alignment) == x - x % alignment
  {
    MaskForm(size, alignment);
    Pow2Mask(WrappedSum(size, alignment), alignment);
  }

  /** ... which is the least aligned value at or above the size. */
  lemma AlignUpIsLeast(size: nat, alignment: nat)
    requires size < WORD && 0 < alignment < WORD && size + alignment - 1 < WORD
    requires IsPow2(alignment)
    ensures LeastMultiple(AlignUp(size, alignment), size, alignment)
  {
    AlignUpRounds(size, alignment);
    RoundDownIsLeast(size, alignment);
  }

  lemma Pow2Mask(x: nat, a: nat)
    requires a > 0 && IsPow2(a)
    ensures And(x, a - 1) == x % a
  {
    var k: nat :| a == Pow2(k);
    AndLowBits(x, k);
  }

  lemma RoundDownIsLeast(size: nat, a: nat)
    requires a > 0
    ensures var x := size + a - 1; LeastMultiple(x - x % a, size, a)
  {
    var x := size + a - 1;
    ModUnique(x - x % a, a, x / a, 0);
    forall m: nat | m % a == 0 && size <= m ensures x - x % a <= m {
      NoMultipleBetween(m, x, a);
    }
  }

  lemma NoMultipleBetween(m: nat, x: nat, a: nat)
    requires a > 0 && m % a == 0 && x < m + a
    ensures x - x % a <= m
  {
    var p, q := m / a, x / a;
    assert m == p * a && x - x % a == q * a;
    if p < q {
      MulStep(p, q, a);
    } else if q < p {
      MulStep(q, p, a);
    }
  }

  lemma {:induction false} LowestBitAlone(a: nat)
    requires a > 0 && And(a, a - 1) == 0
    ensures IsPow2(a)
  {
    AndUnfold(a, a - 1);
    if a % 2 == 1 {
      AndSelf(a / 2);
      assert (a - 1) / 2 == a / 2;
      assert a == Pow2(0);
    } else {
      assert (a - 1) / 2 == a / 2 - 1;
      LowestBitAlone(a / 2);
      var k: nat :| a / 2 == Pow2(k);
      assert a == Pow2(k + 1);
    }
  }

  /** ... and only for powers of two: any other alignment already goes wrong for size 1. */
  lemma AlignUpIsLeastIff(alignment: nat)
    requires 0 < alignment < WORD
    ensures IsPow2(alignment) <==>
      forall size: nat | size + alignment - 1 < WORD :: LeastMultiple(AlignUp(size, alignment), size, alignment)
  {
    if IsPow2(alignment) {
      forall size: nat | size + alignment - 1 < WORD
        ensures LeastMultiple(AlignUp(size, alignment), size, alignment)
      {
        AlignUpIsLeast(size, alignment);
      }
    } else {
      MaskForm(1, alignment);
      var r := AlignUp(1, alignment);
      if LeastMultiple(r, 1, alignment) {
        assert alignment % alignment == 0;
        SmallMultiple(r, alignment);
        LowestBitAlone(alignment);
      }
      assert !LeastMultiple(AlignUp(1, alignment), 1, alignment);
    }
  }

  lemma SmallMultiple(r: nat, a: nat)
    requires a > 0 && r % a == 0 && 1 <= r <= a
    ensures r == a
  {
  }

  /** A request whose round-up wraps to 0 passes any check. */
  lemma WrappedRoundUp()
    ensures AlignUp(WORD - 1, 2) == 0
  {
    MaskForm(WORD - 1, 2);
  }
}
