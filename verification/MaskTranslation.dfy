/**
 The Wi-Fi HAL's translations between its own bit masks and the driver's. Each is a loop over the
 lowest set bit, isolated with 32-bit wrap-around arithmetic, and a switch on that bit.

 The HAL's enum values are not in the repository; they are taken as distinct single bits below bit 31.
 */
module MaskTranslation {
  import opened BitFacts

  /** A case of a switch: the bit looked for and the bit it stands for. */
  datatype Case = Case(from: bv32, to: bv32)

  predicate CaseOk(c: Case) {
    SingleBit(c.from) && c.from != 0x8000_0000 && SingleBit(c.to)
  }

  /** No two cases for the same bit. */
  predicate SwitchOk(cases: seq<Case>) {
    && (forall i :: 0 <= i < |cases| ==> CaseOk(cases[i]))
    && (forall i, j :: 0 <= i < j < |cases| ==> cases[i].from != cases[j].from)
  }

  /** The switch: what one bit stands for, 0 if nothing. */
  function Lookup(cases: seq<Case>, bit: bv32): bv32 {
    if cases == [] then 0 else if bit == cases[0].from then cases[0].to else Lookup(cases[1..], bit)
  }

  /** Bit by bit: k is what some set bit of the mask stands for. */
  predicate Meant(cases: seq<Case>, m: bv32, k: bv32) {
    exists i :: 0 <= i < |cases| && cases[i].to == k && Has(m, cases[i].from)
  }

  /** out has exactly the bits meant. */
  ghost predicate IsTranslation(cases: seq<Case>, m: bv32, out: bv32) {
    forall k :: SingleBit(k) ==> (Has(out, k) <==> Meant(cases, m, k))
  }

  lemma {:induction false} LookupFinds(cases: seq<Case>, bit: bv32, k: bv32)
    requires SwitchOk(cases) && SingleBit(k)
    ensures Lookup(cases, bit) == k <==> exists i :: 0 <= i < |cases| && cases[i].to == k && cases[i].from == bit
    ensures Lookup(cases, bit) == 0 || SingleBit(Lookup(cases, bit))
  {
    if cases != [] {
      var c, tail := cases[0], cases[1..];
      LookupFinds(tail, bit, k);
      assert CaseOk(c);
      if bit == c.from {
        assert cases[0].to == c.to;
      } else if Lookup(tail, bit) == k {
        var j :| 0 <= j < |tail| && tail[j].to == k && tail[j].from == bit;
        assert cases[j + 1] == tail[j];
      } else {
        assert forall i :: 0 < i < |cases| ==> cases[i] == tail[i - 1];
      }
    }
  }

  /** What a mask stands for is what the isolated bit stands for and what the rest does. */
  lemma MeantSplits(cases: seq<Case>, m: bv32, low: bv32, rest: bv32, k: bv32)
    requires SwitchOk(cases) && Split(m, low, rest) && SingleBit(k)
    ensures Meant(cases, m, k) <==> Lookup(cases, low) == k || Meant(cases, rest, k)
  {
    LookupFinds(cases, low, k);
    forall i | 0 <= i < |cases|
      ensures Has(m, cases[i].from) <==> low == cases[i].from || Has(rest, cases[i].from)
    {
      assert CaseOk(cases[i]);
      FoundInParts(m, low, rest, cases[i].from);
    }
  }

  /** out and what m still stands for make up what all stands for. */
  ghost predicate Gathers(cases: seq<Case>, out: bv32, m: bv32, all: bv32) {
    forall k :: SingleBit(k) ==> (Has(out, k) || Meant(cases, m, k) <==> Meant(cases, all, k))
  }

  lemma StepGathers(cases: seq<Case>, out: bv32, m: bv32, all: bv32, low: bv32, rest: bv32)
    requires SwitchOk(cases) && Split(m, low, rest) && Gathers(cases, out, m, all)
    ensures Gathers(cases, out | Lookup(cases, low), rest, all)
  {
    var here := Lookup(cases, low);
    forall k | SingleBit(k)
      ensures Has(out | here, k) || Meant(cases, rest, k) <==> Meant(cases, all, k)
    {
      MeantSplits(cases, m, low, rest, k);
      LookupFinds(cases, low, k);
      JoinHas(out, here, k);
    }
  }

  lemma NothingGathered(cases: seq<Case>, all: bv32)
    ensures Gathers(cases, 0, all, all)
  {
    forall k: bv32 | SingleBit(k) ensures !Has(0, k) { NoneHas(k); }
  }

  lemma AllGathered(cases: seq<Case>, out: bv32, all: bv32)
    requires Gathers(cases, out, 0, all)
    ensures IsTranslation(cases, all, out)
  {
    forall k: bv32 ensures !Has(0, k) { NoneHas(k); }
  }

  /** One turn's arithmetic. */
  method TakeLowest(m: bv32) returns (low: bv32, rest: bv32)
    requires m != 0
    ensures Split(m, low, rest)
  {
    var tmp := m - 1;
    low := Isolated(m, tmp);
    rest := m & tmp;
  }

  /** The loop the three translations share. */
  method TranslateMask(cases: seq<Case>, mask: bv32) returns (out: bv32)
    requires SwitchOk(cases)
    ensures IsTranslation(cases, mask, out)
  {
    var m := mask;
    out := 0;
    NothingGathered(cases, mask);
    while m != 0
      invariant Gathers(cases, out, m, mask)
      decreases m
    {
      var low, rest := TakeLowest(m);
      RestIsSmaller(m, low, rest);
      StepGathers(cases, out, m, mask, low, rest);
      out := out | Lookup(cases, low);
      m := rest;
    }
    AllGathered(cases, out, mask);
  }

  /** A translation is determined by its bits. */
  lemma TranslationIsUnique(cases: seq<Case>, m: bv32, x: bv32, y: bv32)
    requires IsTranslation(cases, m, x) && IsTranslation(cases, m, y)
    ensures x == y
  {
    SameBits(x, y);
  }

  lemma {:induction false} UnionHas(a: bv32, b: bv32, k: bv32)
    ensures Has(a | b, k) <==> Has(a, k) || Has(b, k)
  {
    if Has(a, k) {
      UnionHasLeft(a, b, k);
    } else if Has(b, k) {
      UnionHasRight(a, b, k);
    } else {
      UnionHasNoMore(a, b, k);
    }
  }

  /** f(a | b) == f(a) | f(b). */
  lemma TranslationOfUnion(cases: seq<Case>, a: bv32, b: bv32, x: bv32, y: bv32)
    requires IsTranslation(cases, a, x) && IsTranslation(cases, b, y)
    ensures IsTranslation(cases, a | b, x | y)
  {
    forall i | 0 <= i < |cases|
      ensures Has(a | b, cases[i].from) <==> Has(a, cases[i].from) || Has(b, cases[i].from)
    {
      UnionHas(a, b, cases[i].from);
    }
    forall k | SingleBit(k) ensures Has(x | y, k) <==> Has(x, k) || Has(y, k) {
      UnionHas(x, y, k);
    }
  }

  /** Bit 31 of a mask means nothing. */
  lemma TopBitMeansNothing(cases: seq<Case>, m: bv32, x: bv32)
    requires SwitchOk(cases) && IsTranslation(cases, m, x)
    ensures IsTranslation(cases, m & 0x7fff_ffff, x)
  {
    forall i | 0 <= i < |cases|
      ensures Has(m & 0x7fff_ffff, cases[i].from) <==> Has(m, cases[i].from)
    {
      assert CaseOk(cases[i]);
      BelowTopHas(m, cases[i].from);
    }
  }
}
