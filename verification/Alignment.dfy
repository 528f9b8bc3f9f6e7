/** Alignment arithmetic of the memory manager, on 64-bit words. */
module Alignment {

  /** uintptr_t has 64 bits; arithmetic on it is modulo this. */
  const WORD: nat := 0x1_0000_0000_0000_0000

  function Wrap(x: int): nat { x % WORD }

  predicate PowerOfTwo(a: nat) {
    a == 1 || (a > 1 && a % 2 == 0 && PowerOfTwo(a / 2))
  }

  /** The least multiple of `a` that is not below `x`. */
  function AlignUp(x: nat, a: nat): nat
    requires a > 0
  {
    x + (if x % a == 0 then 0 else a - x % a)
  }

  lemma {:induction false} MultipleMod(q: nat, a: nat)
    requires a > 0
    ensures (q * a) % a == 0
    decreases q
  {
    if q > 0 {
      MultipleMod(q - 1, a);
      assert q * a == (q - 1) * a + a;
      AddMod((q - 1) * a, a, a);
    }
  }

  /** Remainders after adding a number below the modulus or a multiple of it. */
  lemma AddMod(x: nat, y: nat, a: nat)
    requires a > 0 && x % a == 0 && y <= a
    ensures (x + y) % a == if y == a then 0 else y
  {
    var q := x / a;
    assert x == q * a;
    if y == a {
      assert x + y == (q + 1) * a + 0;
      DivUnique(x + y, a, q + 1, 0);
    } else {
      DivUnique(x + y, a, q, y);
    }
  }

  lemma MulLess(p: nat, q: nat, a: nat)
    requires p < q
    ensures p * a + a <= q * a
  {
    assert q * a == p * a + (q - p) * a;
    assert (q - p) * a == a + (q - p - 1) * a;
  }

  lemma DivUnique(x: nat, a: nat, q: nat, r: nat)
    requires a > 0 && r < a && x == q * a + r
    ensures x / a == q && x % a == r
  {
    var q', r' := x / a, x % a;
    assert x == q' * a + r';
    if q < q' {
      MulLess(q, q', a);
    } else if q' < q {
      MulLess(q', q, a);
    }
  }

  lemma ModTrans(x: nat, c: nat, a: nat)
    requires a > 0 && c > 0 && x % c == 0 && c % a == 0
    ensures x % a == 0
  {
    var q, r := x / c, c / a;
    assert x == q * c && c == r * a;
    assert q * (r * a) == (q * r) * a;
    MultipleMod(q * r, a);
  }

  /** Different multiples are at least one modulus apart. */
  lemma MultiplesGap(x: nat, y: nat, a: nat)
    requires a > 0 && x % a == 0 && y % a == 0 && x < y
    ensures x + a <= y
  {
    var p, q := x / a, y / a;
    assert x == p * a && y == q * a;
    if p < q {
      MulLess(p, q, a);
    } else if q < p {
      MulLess(q, p, a);
    }
  }

  lemma SumMod(x: nat, y: nat, a: nat)
    requires a > 0 && x % a == 0 && y % a == 0
    ensures (x + y) % a == 0
  {
    var p, q := x / a, y / a;
    assert x == p * a && y == q * a;
    assert x + y == (p + q) * a;
    MultipleMod(p + q, a);
  }

  lemma DifferenceMod(x: nat, y: nat, a: nat)
    requires a > 0 && x % a == 0 && y % a == 0 && x <= y
    ensures (y - x) % a == 0
  {
    var p, q := x / a, y / a;
    assert x == p * a && y == q * a;
    if q < p {
      MulLess(q, p, a);
    }
    assert y - x == (q - p) * a;
    MultipleMod(q - p, a);
  }

  lemma AlignUpProps(x: nat, a: nat)
    requires a > 0
    ensures x <= AlignUp(x, a) < x + a && AlignUp(x, a) % a == 0
    ensures forall m: nat :: m % a == 0 && m >= x ==> AlignUp(x, a) <= m
  {
    var r := x % a;
    var low := x - r;
    assert low == (x / a) * a;
    MultipleMod(x / a, a);
    AddMod(low, a, a);
    forall m: nat | m % a == 0 && m >= x ensures AlignUp(x, a) <= m {
      if r != 0 {
        MultiplesGap(low, m, a);
      }
    }
  }

  lemma AlignUpMonotone(x: nat, y: nat, a: nat)
    requires a > 0 && x <= y
    ensures AlignUp(x, a) <= AlignUp(y, a)
  {
    AlignUpProps(x, a);
    AlignUpProps(y, a);
  }

  /** Rounding to a finer alignment never goes further. */
  lemma AlignUpFiner(x: nat, a: nat, c: nat)
    requires a > 0 && c > 0 && c % a == 0
    ensures AlignUp(x, a) <= AlignUp(x, c)
  {
    AlignUpProps(x, a);
    AlignUpProps(x, c);
    ModTrans(AlignUp(x, c), c, a);
  }

  /** Adding a multiple commutes with rounding. */
  lemma AlignUpShift(x: nat, m: nat, a: nat)
    requires a > 0 && m % a == 0
    ensures AlignUp(m + x, a) == m + AlignUp(x, a)
  {
    AlignUpProps(x, a);
    AlignUpProps(m + x, a);
    SumMod(m, AlignUp(x, a), a);
    DifferenceMod(m, AlignUp(m + x, a), a);
  }

  /** Powers of two are ordered by divisibility. */
  lemma {:induction false} PowersDivide(a: nat, c: nat)
    requires PowerOfTwo(a) && PowerOfTwo(c) && a <= c
    ensures a > 0 && c % a == 0
    decreases a
  {
    if a > 1 {
      PowersDivide(a / 2, c / 2);
      var q := (c / 2) / (a / 2);
      assert c / 2 == q * (a / 2);
      assert c == 2 * (c / 2) && a == 2 * (a / 2);
      assert q * (2 * (a / 2)) == 2 * (q * (a / 2));
      assert c == q * a;
      MultipleMod(q, a);
    }
  }

  // ----- the formulas of the source

  /** (x + a - 1) / a * a and, for a power of two, (x + a - 1) & ~(a - 1). */
  function RoundUp(x: nat, a: nat): nat
    requires a > 0
  {
    (x + a - 1) / a * a
  }

  lemma RoundUpIsAlignUp(x: nat, a: nat)
    requires a > 0
    ensures RoundUp(x, a) == AlignUp(x, a)
  {
    var q, r := x / a, x % a;
    assert x == q * a + r;
    if r == 0 {
      DivUnique(x + a - 1, a, q, a - 1);
    } else {
      assert x + a - 1 == (q + 1) * a + (r - 1) by {
        assert (q + 1) * a == q * a + a;
      }
      DivUnique(x + a - 1, a, q + 1, r - 1);
      assert (q + 1) * a == q * a + a;
    }
  }

  /** Space that allocateSection looks for, computed on words. */
  function RequiredSpace(size: nat, a: nat): nat
    requires a > 0
  {
    Wrap(a * (Wrap(size + a - 1) / a + 1))
  }

  /** The space for a section of this size fits a word. */
  predicate InWord(size: nat, a: nat) {
    size + 2 * a <= WORD
  }

  /** The formula is exact as long as it fits a word, and only then. */
  lemma RequiredSpaceExact(size: nat, a: nat)
    requires PowerOfTwo(a) && a < WORD && size < WORD
    ensures a > 0 && (RequiredSpace(size, a) == AlignUp(size, a) + a <==> InWord(size, a))
  {
    PowersDivide(1, a);
    if size + 2 * a <= WORD {
      RequiredSpaceFits(size, a);
    } else {
      WordIsPower();
      PowersDivide(a, WORD);
      TooLarge(size, a);
      WrapBelow(a * (Wrap(size + a - 1) / a + 1));
    }
  }

  lemma WrapBelow(x: int)
    ensures Wrap(x) < WORD && (0 <= x < WORD ==> Wrap(x) == x)
  {
  }

  lemma RequiredSpaceFits(size: nat, a: nat)
    requires a > 0 && InWord(size, a)
    ensures RequiredSpace(size, a) == AlignUp(size, a) + a
  {
    var q := (size + a - 1) / a;
    MultipleFits(size, a);
    RoundUpIsAlignUp(size, a);
    WrapBelow(size + a - 1);
    assert a * (q + 1) == q * a + a;
    WrapBelow(a * (q + 1));
  }

  lemma MultipleFits(size: nat, a: nat)
    requires a > 0 && size + 2 * a <= WORD
    ensures AlignUp(size, a) + a < WORD
  {
    AlignUpProps(size, a);
  }

  lemma TooLarge(size: nat, a: nat)
    requires a > 0 && WORD % a == 0 && size + 2 * a > WORD
    ensures AlignUp(size, a) + a >= WORD
  {
    AlignUpProps(size, a);
    if AlignUp(size, a) + a < WORD {
      SumMod(AlignUp(size, a), a, a);
      MultiplesGap(AlignUp(size, a) + a, WORD, a);
    }
  }

  lemma {:induction false} PowerTimes(a: nat, b: nat)
    requires PowerOfTwo(a) && PowerOfTwo(b)
    ensures PowerOfTwo(a * b)
    decreases a
  {
    if a > 1 {
      PowerTimes(a / 2, b);
      assert a * b == 2 * ((a / 2) * b) by {
        assert a == 2 * (a / 2);
      }
      PowerDouble((a / 2) * b);
    }
  }

  lemma PowerDouble(n: nat)
    requires PowerOfTwo(n)
    ensures PowerOfTwo(2 * n)
  {
    assert (2 * n) / 2 == n;
  }

  lemma WordIsPower()
    ensures PowerOfTwo(WORD)
  {
    PowerTimes(2, 2);
    PowerTimes(4, 4);
    PowerTimes(0x10, 0x10);
    PowerTimes(0x100, 0x100);
    PowerTimes(0x1_0000, 0x1_0000);
    PowerTimes(0x1_0000_0000, 0x1_0000_0000);
  }

  lemma WordMultiple(c: nat)
    requires PowerOfTwo(c) && c <= WORD
    ensures c > 0 && WORD % c == 0
  {
    WordIsPower();
    PowersDivide(1, c);
    PowersDivide(c, WORD);
  }
}
