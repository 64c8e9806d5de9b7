/** 32-bit facts about the bits of a mask, one to a lemma: the solver decides each of them alone. */
module BitFacts {
  predicate SingleBit(b: bv32) {
    b != 0 && b & (b - 1) == 0
  }

  predicate Has(m: bv32, b: bv32) {
    m & b != 0
  }

  /** The bit the loops isolate, with 32-bit wrap-around; below is the mask minus one. */
  function Isolated(m: bv32, below: bv32): bv32 {
    ((below ^ m) + 1) >> 1
  }

  /** low is the isolated bit, rest the mask without its lowest bit. */
  predicate Split(m: bv32, low: bv32, rest: bv32) {
    m != 0 && low == Isolated(m, m - 1) && rest == m & (m - 1)
  }

  lemma RestIsSmaller(m: bv32, low: bv32, rest: bv32)
    requires Split(m, low, rest)
    ensures rest < m
  {
  }

  // The top bit is the one the loops cannot isolate.

  lemma BitIsInAPart(m: bv32, low: bv32, rest: bv32, b: bv32)
    requires Split(m, low, rest) && SingleBit(b) && b != 0x8000_0000
    ensures m & b != 0 ==> low == b || rest & b != 0
  {
  }

  lemma LowIsInMask(m: bv32, low: bv32, rest: bv32, b: bv32)
    requires Split(m, low, rest) && SingleBit(b)
    ensures low == b ==> m & b != 0
  {
  }

  lemma RestIsInMask(m: bv32, low: bv32, rest: bv32, b: bv32)
    requires Split(m, low, rest) && SingleBit(b)
    ensures rest & b != 0 ==> m & b != 0
  {
  }

  /** The bits of a mask below the top one are the isolated one and those of the rest. */
  lemma FoundInParts(m: bv32, low: bv32, rest: bv32, b: bv32)
    requires Split(m, low, rest) && SingleBit(b) && b != 0x8000_0000
    ensures Has(m, b) <==> low == b || Has(rest, b)
  {
    if Has(m, b) {
      BitIsInAPart(m, low, rest, b);
    } else if low == b {
      LowIsInMask(m, low, rest, b);
    } else {
      RestIsInMask(m, low, rest, b);
    }
  }

  /** The top bit alone is not isolated: the addition wraps, and the loop looks up 0. */
  lemma TopBitIsLost(low: bv32, rest: bv32)
    requires Split(0x8000_0000, low, rest)
    ensures low == 0 && rest == 0
  {
  }

  lemma BelowTopKept(m: bv32, k: bv32)
    requires SingleBit(k) && k != 0x8000_0000 && m & k != 0
    ensures (m & 0x7fff_ffff) & k != 0
  {
  }

  lemma UnionHasLeft(a: bv32, b: bv32, k: bv32)
    ensures a & k != 0 ==> (a | b) & k != 0
  {
  }

  lemma UnionHasRight(a: bv32, b: bv32, k: bv32)
    ensures b & k != 0 ==> (a | b) & k != 0
  {
  }

  lemma UnionHasNoMore(a: bv32, b: bv32, k: bv32)
    ensures a & k == 0 && b & k == 0 ==> (a | b) & k == 0
  {
  }

  lemma BothHave(a: bv32, b: bv32, k: bv32)
    requires SingleBit(k)
    ensures a & k != 0 && b & k != 0 ==> (a & b) & k != 0
  {
  }

  lemma IntersectionInLeft(a: bv32, b: bv32, k: bv32)
    ensures (a & b) & k != 0 ==> a & k != 0
  {
  }

  lemma IntersectionInRight(a: bv32, b: bv32, k: bv32)
    ensures (a & b) & k != 0 ==> b & k != 0
  {
  }

  lemma IntersectionHas(a: bv32, b: bv32, k: bv32)
    requires SingleBit(k)
    ensures Has(a & b, k) <==> Has(a, k) && Has(b, k)
  {
    if Has(a & b, k) {
      IntersectionInLeft(a, b, k);
      IntersectionInRight(a, b, k);
    } else if Has(a, k) && Has(b, k) {
      BothHave(a, b, k);
    }
  }

  lemma BelowTopHas(m: bv32, k: bv32)
    requires SingleBit(k) && k != 0x8000_0000
    ensures Has(m & 0x7fff_ffff, k) <==> Has(m, k)
  {
    if Has(m, k) {
      BelowTopKept(m, k);
    } else {
      IntersectionInLeft(m, 0x7fff_ffff, k);
    }
  }

  lemma SingleHas(a: bv32, k: bv32)
    requires SingleBit(a) && SingleBit(k) && a != k
    ensures a & k == 0
  {
  }

  lemma SingleHasItself(k: bv32)
    requires SingleBit(k)
    ensures k & k != 0
  {
  }

  lemma NoneHas(k: bv32)
    ensures 0 & k == 0
  {
  }

  /** Joining in a bit, or nothing, adds that bit only. */
  lemma JoinHas(a: bv32, b: bv32, k: bv32)
    requires SingleBit(k) && (b == 0 || SingleBit(b))
    ensures Has(a | b, k) <==> Has(a, k) || b == k
  {
    if Has(a, k) {
      UnionHasLeft(a, b, k);
    } else if b == k {
      SingleHasItself(k);
      UnionHasRight(a, b, k);
    } else if b == 0 {
      NoneHas(k);
    } else {
      SingleHas(b, k);
      UnionHasNoMore(a, b, k);
    }
  }

  lemma ThreeHaveFirst(a: bv32, b: bv32, c: bv32)
    requires a != 0
    ensures (a | b | c) & a != 0
  {
  }

  lemma ThreeHaveSecond(a: bv32, b: bv32, c: bv32)
    requires b != 0
    ensures (a | b | c) & b != 0
  {
  }

  lemma ThreeHaveThird(a: bv32, b: bv32, c: bv32)
    requires c != 0
    ensures (a | b | c) & c != 0
  {
  }

  lemma ThreeHaveNoMore(a: bv32, b: bv32, c: bv32, k: bv32)
    requires !Has(a, k) && !Has(b, k) && !Has(c, k)
    ensures !Has(a | b | c, k)
  {
  }

  /** A bit in which two different masks differ. */
  function Difference(a: bv32, b: bv32): bv32 {
    (a ^ b) & (0 - (a ^ b))
  }

  lemma DifferenceIsBit(a: bv32, b: bv32)
    requires a != b
    ensures SingleBit(Difference(a, b))
  {
  }

  lemma DifferenceInOne(a: bv32, b: bv32, d: bv32)
    requires a != b && d == (a ^ b) & (0 - (a ^ b))
    ensures a & d != 0 || b & d != 0
  {
  }

  lemma SingleIsAllOrNothing(a: bv32, d: bv32)
    requires SingleBit(d) && a & d != 0
    ensures a & d == d
  {
  }

  lemma DifferenceIsDifferent(x: bv32, d: bv32)
    requires d == x & (0 - x)
    ensures x & d == d
  {
  }

  lemma DifferenceNotInBoth(a: bv32, b: bv32, d: bv32)
    requires (a ^ b) & d == d && a & d == d
    ensures b & d == 0
  {
  }

  lemma SeenInFirstOnly(a: bv32, b: bv32, d: bv32)
    requires a != b && d == Difference(a, b) && Has(a, d) && SingleBit(d)
    ensures !Has(b, d)
  {
    SingleIsAllOrNothing(a, d);
    DifferenceIsDifferent(a ^ b, d);
    DifferenceNotInBoth(a, b, d);
  }

  lemma SeenInSecondOnly(a: bv32, b: bv32, d: bv32)
    requires a != b && d == Difference(a, b) && !Has(a, d)
    ensures Has(b, d)
  {
    DifferenceInOne(a, b, d);
  }

  /** Two different masks differ in a bit. */
  lemma DifferenceIsSeen(a: bv32, b: bv32) returns (d: bv32)
    requires a != b
    ensures SingleBit(d) && Has(a, d) == !Has(b, d)
  {
    d := Difference(a, b);
    DifferenceIsBit(a, b);
    if Has(a, d) {
      SeenInFirstOnly(a, b, d);
    } else {
      SeenInSecondOnly(a, b, d);
    }
  }

  predicate Agree(a: bv32, b: bv32, k: bv32) {
    Has(a, k) <==> Has(b, k)
  }

  lemma SameBits(a: bv32, b: bv32)
    requires forall k :: SingleBit(k) ==> Agree(a, b, k)
    ensures a == b
  {
    if a != b {
      var d := DifferenceIsSeen(a, b);
    }
  }
}
