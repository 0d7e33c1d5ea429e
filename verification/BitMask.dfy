/** Bit mask words as numbers, and the sets of bits they stand for. */
module BitMask {
  import opened Arith

  function Pow2(n: nat): (p: nat)
    ensures p > 0
  {
    if n == 0 then 1 else 2 * Pow2(n - 1)
  }

  predicate HasBit(word: nat, i: nat) {
    word / Pow2(i) % 2 == 1
  }

  /** `word | (1 << i)` */
  function OrBit(word: nat, i: nat): nat {
    if HasBit(word, i) then word else word + Pow2(i)
  }

  /** The word whose bits below `width` are those in `bits`. */
  ghost function Word(bits: set<nat>, width: nat): nat {
    if width == 0 then 0 else Word(bits, width - 1) + if width - 1 in bits then Pow2(width - 1) else 0
  }

  ghost predicate AllBelow(bits: set<nat>, n: nat) {
    forall i: nat :: i < n ==> i in bits
  }

  lemma {:induction false} WordBound(bits: set<nat>, width: nat)
    ensures Word(bits, width) < Pow2(width)
  {
    if width > 0 {
      WordBound(bits, width - 1);
    }
  }

  lemma {:induction false} Pow2Add(a: nat, b: nat)
    ensures Pow2(a + b) == Pow2(a) * Pow2(b)
  {
    if a > 0 {
      Pow2Add(a - 1, b);
      Associate(2, Pow2(a - 1), Pow2(b));
    }
  }

  lemma Pow2Monotone(a: nat, b: nat)
    requires a <= b
    ensures Pow2(a) <= Pow2(b)
  {
    Pow2Add(a, b - a);
    MulMonotone(1, Pow2(b - a), Pow2(a));
  }

  lemma {:induction false} WordHasBit(bits: set<nat>, width: nat, i: nat)
    requires i < width
    ensures HasBit(Word(bits, width), i) <==> i in bits
  {
    var low := Word(bits, width - 1);
    WordBound(bits, width - 1);
    if i == width - 1 {
      DivModUnique(Word(bits, width), Pow2(i), if i in bits then 1 else 0, low);
    } else {
      WordHasBit(bits, width - 1, i);
      if width - 1 in bits {
        var k := Pow2(width - 2 - i);
        assert Pow2(width - 1) == (2 * k) * Pow2(i) by {
          Pow2Add(width - 1 - i, i);
        }
        AddMultiple(low, Pow2(i), 2 * k);
        AddMultiple(low / Pow2(i), 2, k);
      }
    }
  }

  lemma {:induction false} WordAddBit(bits: set<nat>, width: nat, i: nat)
    requires i !in bits
    ensures Word(bits + {i}, width) == Word(bits, width) + if i < width then Pow2(i) else 0
  {
    if width > 0 {
      WordAddBit(bits, width - 1, i);
    }
  }

  /** Or-ing a bit into a word adds it to the set. */
  lemma OrBitWord(bits: set<nat>, width: nat, i: nat)
    requires i < width
    ensures OrBit(Word(bits, width), i) == Word(bits + {i}, width)
  {
    WordHasBit(bits, width, i);
    if i in bits {
      assert bits + {i} == bits;
    } else {
      WordAddBit(bits, width, i);
    }
  }

  /** A word equals (1 << width) - 1 exactly when all its bits are set. */
  lemma {:induction false} FullWordIff(bits: set<nat>, width: nat)
    ensures Word(bits, width) == Pow2(width) - 1 <==> AllBelow(bits, width)
  {
    if width > 0 {
      FullWordIff(bits, width - 1);
      WordBound(bits, width - 1);
    }
  }

  lemma {:induction false} WordWithoutHighBits(bits: set<nat>, width: nat, n: nat)
    requires n <= width && forall i: nat :: n <= i < width ==> i !in bits
    ensures Word(bits, width) == Word(bits, n)
  {
    if n < width {
      WordWithoutHighBits(bits, width - 1, n);
    }
  }

  lemma {:induction false} WordWithBit(bits: set<nat>, width: nat, i: nat)
    requires i in bits && i < width
    ensures Word(bits, width) >= Pow2(i)
  {
    if i < width - 1 {
      WordWithBit(bits, width - 1, i);
    }
  }

  /** Comparing a word with (1 << n) - 1: it is not less when bits 0 .. n - 1 are set, or any higher one. */
  lemma AtLeastFullIff(bits: set<nat>, width: nat, n: nat)
    requires n <= width
    ensures Word(bits, width) >= Pow2(n) - 1 <==> AllBelow(bits, n) || exists i: nat :: n <= i < width && i in bits
  {
    if i: nat :| n <= i < width && i in bits {
      WordWithBit(bits, width, i);
      Pow2Monotone(n, i);
    } else {
      WordWithoutHighBits(bits, width, n);
      FullWordIff(bits, n);
      WordBound(bits, n);
    }
  }

  /** The empty set is the zero word. */
  lemma {:induction false} EmptyWord(width: nat)
    ensures Word({}, width) == 0
  {
    if width > 0 {
      EmptyWord(width - 1);
    }
  }

  lemma {:induction false} WordExtensional(a: set<nat>, b: set<nat>, width: nat)
    requires forall i: nat :: i < width ==> (i in a <==> i in b)
    ensures Word(a, width) == Word(b, width)
  {
    if width > 0 {
      WordExtensional(a, b, width - 1);
    }
  }
}
