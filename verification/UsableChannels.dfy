/**
 The translations of the usable-channels query of the Wi-Fi HAL (wlan/wifi_hal/main.cpp): HAL bands and
 interface modes to the driver's, and the driver's answer back into the caller's array.
 */
module UsableChannels {
  import opened BitFacts
  import opened MaskTranslation

  /** The HAL's own enum values, which the repository does not define. */
  datatype HalBits = HalBits(band2: bv32, band5: bv32, band6: bv32, band60: bv32, sta: bv32, ap: bv32, p2p: bv32)

  // Bits 1, 2, 3 and 4 of a driver mode mask.
  const MODE_STA: bv32 := 2
  const MODE_AP: bv32 := 4
  const MODE_GC: bv32 := 8
  const MODE_GO: bv32 := 16

  function BandCases(h: HalBits): seq<Case> {
    [Case(h.band2, 1), Case(h.band5, 2), Case(h.band6, 4), Case(h.band60, 8)]
  }

  function ToDriverCases(h: HalBits): seq<Case> {
    [Case(h.sta, MODE_STA), Case(h.ap, MODE_AP), Case(h.p2p, MODE_GC)]
  }

  function ToHalCases(h: HalBits): seq<Case> {
    [Case(MODE_STA, h.sta), Case(MODE_AP, h.ap), Case(MODE_GC, h.p2p), Case(MODE_GO, h.p2p)]
  }

  /** Distinct single bits below the top one, among the bands and among the modes. */
  predicate HalBitsOk(h: HalBits) {
    SwitchOk(BandCases(h)) && SwitchOk(ToDriverCases(h))
  }

  lemma SwitchesOk(h: HalBits)
    requires HalBitsOk(h)
    ensures SwitchOk(ToHalCases(h))
    ensures SingleBit(h.sta) && SingleBit(h.ap) && SingleBit(h.p2p)
    ensures h.sta != h.ap && h.ap != h.p2p && h.p2p != h.sta
  {
    var cases := ToDriverCases(h);
    assert CaseOk(cases[0]) && CaseOk(cases[1]) && CaseOk(cases[2]);
    assert cases[0].from == h.sta && cases[1].from == h.ap && cases[2].from == h.p2p;
  }

  lemma DriverBit(h: HalBits, m: bv32, k: bv32)
    ensures Meant(ToDriverCases(h), m, k) <==>
            (k == MODE_STA && Has(m, h.sta)) || (k == MODE_AP && Has(m, h.ap)) || (k == MODE_GC && Has(m, h.p2p))
  {
    var cases := ToDriverCases(h);
    assert cases[0].to == MODE_STA && cases[1].to == MODE_AP && cases[2].to == MODE_GC;
  }

  lemma HalBit(h: HalBits, s: bv32, k: bv32)
    ensures Meant(ToHalCases(h), s, k) <==>
            (k == h.sta && Has(s, MODE_STA)) || (k == h.ap && Has(s, MODE_AP))
            || (k == h.p2p && (Has(s, MODE_GC) || Has(s, MODE_GO)))
  {
    var cases := ToHalCases(h);
    assert cases[0].to == h.sta && cases[1].to == h.ap && cases[2].to == h.p2p && cases[3].to == h.p2p;
  }

  predicate IsMode(h: HalBits, k: bv32) {
    k == h.sta || k == h.ap || k == h.p2p
  }

  lemma DriverHasSta(h: HalBits, m: bv32, driver: bv32)
    requires IsTranslation(ToDriverCases(h), m, driver)
    ensures Has(driver, MODE_STA) <==> Has(m, h.sta)
  {
    DriverBit(h, m, MODE_STA);
  }

  lemma DriverHasAp(h: HalBits, m: bv32, driver: bv32)
    requires IsTranslation(ToDriverCases(h), m, driver)
    ensures Has(driver, MODE_AP) <==> Has(m, h.ap)
  {
    DriverBit(h, m, MODE_AP);
  }

  lemma DriverHasGc(h: HalBits, m: bv32, driver: bv32)
    requires IsTranslation(ToDriverCases(h), m, driver)
    ensures Has(driver, MODE_GC) <==> Has(m, h.p2p)
  {
    DriverBit(h, m, MODE_GC);
  }

  lemma DriverHasNoGo(h: HalBits, m: bv32, driver: bv32)
    requires IsTranslation(ToDriverCases(h), m, driver)
    ensures !Has(driver, MODE_GO)
  {
    DriverBit(h, m, MODE_GO);
  }

  /** There and back: exactly the station, access point and P2P bits survive. */
  lemma ThereAndBackBit(h: HalBits, m: bv32, driver: bv32, back: bv32, k: bv32)
    requires HalBitsOk(h) && SingleBit(k)
    requires IsTranslation(ToDriverCases(h), m, driver) && IsTranslation(ToHalCases(h), driver, back)
    ensures Has(back, k) <==> Has(m, k) && IsMode(h, k)
  {
    HalBit(h, driver, k);
    DriverHasSta(h, m, driver);
    DriverHasAp(h, m, driver);
    DriverHasGc(h, m, driver);
    DriverHasNoGo(h, m, driver);
  }

  function Modes(h: HalBits): bv32 {
    h.sta | h.ap | h.p2p
  }

  lemma OtherBit(h: HalBits, k: bv32)
    requires SingleBit(h.sta) && SingleBit(h.ap) && SingleBit(h.p2p) && SingleBit(k)
    ensures IsMode(h, k) || !Has(Modes(h), k)
  {
    if !IsMode(h, k) {
      OtherHasNot(h.sta, k);
      OtherHasNot(h.ap, k);
      OtherHasNot(h.p2p, k);
      ThreeHaveNoMore(h.sta, h.ap, h.p2p, k);
    }
  }

  lemma OtherHasNot(a: bv32, k: bv32)
    requires SingleBit(a) && SingleBit(k)
    ensures a == k || !Has(a, k)
  {
    if a != k {
      SingleHas(a, k);
    }
  }

  lemma ModeBit(h: HalBits, k: bv32)
    requires SingleBit(k) && IsMode(h, k)
    ensures Has(Modes(h), k)
  {
    if k == h.sta {
      ThreeHaveFirst(k, h.ap, h.p2p);
    } else if k == h.ap {
      ThreeHaveSecond(h.sta, k, h.p2p);
    } else {
      ThreeHaveThird(h.sta, h.ap, k);
    }
  }

  lemma ModeBits(h: HalBits, k: bv32)
    requires HalBitsOk(h) && SingleBit(k)
    ensures Has(Modes(h), k) <==> IsMode(h, k)
  {
    SwitchesOk(h);
    if IsMode(h, k) {
      ModeBit(h, k);
    } else {
      OtherBit(h, k);
    }
  }

  lemma ThereAndBack(h: HalBits, m: bv32, driver: bv32, back: bv32)
    requires HalBitsOk(h)
    requires IsTranslation(ToDriverCases(h), m, driver) && IsTranslation(ToHalCases(h), driver, back)
    ensures back == m & Modes(h)
  {
    var modes := Modes(h);
    forall k | SingleBit(k) ensures Agree(back, m & modes, k) {
      ThereAndBackBit(h, m, driver, back, k);
      ModeBits(h, k);
      IntersectionHas(m, modes, k);
    }
    SameBits(back, m & modes);
  }

  /** Back and there: a driver mask keeps its modes, a group owner becoming a group client. */
  lemma BackAndThereBit(h: HalBits, driver: bv32, hal: bv32, again: bv32, k: bv32)
    requires HalBitsOk(h) && SingleBit(k)
    requires IsTranslation(ToHalCases(h), driver, hal) && IsTranslation(ToDriverCases(h), hal, again)
    ensures Has(again, k) <==>
      (k == MODE_STA && Has(driver, MODE_STA)) || (k == MODE_AP && Has(driver, MODE_AP))
      || (k == MODE_GC && (Has(driver, MODE_GC) || Has(driver, MODE_GO)))
  {
    SwitchesOk(h);
    HalBit(h, driver, h.sta);
    HalBit(h, driver, h.ap);
    HalBit(h, driver, h.p2p);
    DriverBit(h, hal, k);
  }

  lemma ModeOnly(h: HalBits, driver: bv32, hal: bv32, k: bv32)
    requires SingleBit(k) && IsTranslation(ToHalCases(h), driver, hal)
    ensures Has(hal, k) ==> IsMode(h, k)
  {
    HalBit(h, driver, k);
  }

  /** A second trip changes nothing. */
  lemma SecondTripIsIdle(h: HalBits, driver: bv32, hal: bv32, again: bv32, hal2: bv32, again2: bv32)
    requires HalBitsOk(h)
    requires IsTranslation(ToHalCases(h), driver, hal) && IsTranslation(ToDriverCases(h), hal, again)
    requires IsTranslation(ToHalCases(h), again, hal2) && IsTranslation(ToDriverCases(h), hal2, again2)
    ensures hal2 == hal && again2 == again
  {
    forall k | SingleBit(k) ensures Agree(hal2, hal, k) {
      ThereAndBackBit(h, hal, again, hal2, k);
      ModeOnly(h, driver, hal, k);
    }
    SameBits(hal2, hal);
    TranslationIsUnique(ToDriverCases(h), hal, again, again2);
  }

  lemma AnswerBitStaysInside(h: HalBits, m: bv32, asked: bv32, driver: bv32, hal: bv32, k: bv32)
    requires HalBitsOk(h) && SingleBit(k)
    requires IsTranslation(ToDriverCases(h), m, asked) && IsTranslation(ToHalCases(h), driver, hal)
    requires forall d :: SingleBit(d) && Has(driver, d) ==> Has(asked, d)
    ensures Has(hal, k) ==> Has(m, k)
  {
    HalBit(h, driver, k);
    DriverHasSta(h, m, asked);
    DriverHasAp(h, m, asked);
    DriverHasGc(h, m, asked);
    DriverHasNoGo(h, m, asked);
  }

  /** When the driver answers within what it was asked, nothing the caller did not ask for comes back. */
  lemma AnswerStaysInside(h: HalBits, m: bv32, asked: bv32, driver: bv32, hal: bv32)
    requires HalBitsOk(h)
    requires IsTranslation(ToDriverCases(h), m, asked) && IsTranslation(ToHalCases(h), driver, hal)
    requires forall d :: SingleBit(d) && Has(driver, d) ==> Has(asked, d)
    ensures hal & m == hal
  {
    forall k | SingleBit(k) ensures Agree(hal & m, hal, k) {
      AnswerBitStaysInside(h, m, asked, driver, hal, k);
      IntersectionHas(hal, m, k);
    }
    SameBits(hal & m, hal);
  }

  /** Bits 0 to 3 of the driver's mask stand for the bands of 2.4, 5, 6 and 60 GHz. */
  predicate BandMeant(h: HalBits, m: bv32, k: bv32) {
    || (k == 1 && Has(m, h.band2))
    || (k == 2 && Has(m, h.band5))
    || (k == 4 && Has(m, h.band6))
    || (k == 8 && Has(m, h.band60))
  }

  /** Bits 1 to 3 of the driver's mode mask stand for station, access point and P2P client. */
  predicate DriverMeant(h: HalBits, m: bv32, k: bv32) {
    (k == 2 && Has(m, h.sta)) || (k == 4 && Has(m, h.ap)) || (k == 8 && Has(m, h.p2p))
  }

  /** Bits 1 to 4 of it stand for station, access point, and P2P twice, as client and as owner. */
  predicate HalMeant(h: HalBits, m: bv32, k: bv32) {
    (k == h.sta && Has(m, 2)) || (k == h.ap && Has(m, 4)) || (k == h.p2p && (Has(m, 8) || Has(m, 16)))
  }

  lemma BandBit(h: HalBits, m: bv32, k: bv32)
    ensures Meant(BandCases(h), m, k) <==> BandMeant(h, m, k)
  {
    var cases := BandCases(h);
    assert cases[0].to == 1 && cases[1].to == 2 && cases[2].to == 4 && cases[3].to == 8;
  }

  method ToSkwBandMask(h: HalBits, halBandMask: bv32) returns (skwMask: bv32)
    requires HalBitsOk(h)
    ensures IsTranslation(BandCases(h), halBandMask, skwMask)
    ensures forall k :: SingleBit(k) ==> (Has(skwMask, k) <==> BandMeant(h, halBandMask, k))
  {
    skwMask := TranslateMask(BandCases(h), halBandMask);
    forall k: bv32 ensures Meant(BandCases(h), halBandMask, k) <==> BandMeant(h, halBandMask, k) {
      BandBit(h, halBandMask, k);
    }
  }

  method ToSkwIfaceMask(h: HalBits, halIfaceMask: bv32) returns (skwMask: bv32)
    requires HalBitsOk(h)
    ensures IsTranslation(ToDriverCases(h), halIfaceMask, skwMask)
    ensures forall k :: SingleBit(k) ==> (Has(skwMask, k) <==> DriverMeant(h, halIfaceMask, k))
  {
    skwMask := TranslateMask(ToDriverCases(h), halIfaceMask);
    forall k: bv32 ensures Meant(ToDriverCases(h), halIfaceMask, k) <==> DriverMeant(h, halIfaceMask, k) {
      DriverBit(h, halIfaceMask, k);
    }
  }

  method ToHalIfaceMask(h: HalBits, skwIfaceMask: bv32) returns (halMask: bv32)
    requires HalBitsOk(h)
    ensures IsTranslation(ToHalCases(h), skwIfaceMask, halMask)
    ensures forall k :: SingleBit(k) ==> (Has(halMask, k) <==> HalMeant(h, skwIfaceMask, k))
  {
    SwitchesOk(h);
    halMask := TranslateMask(ToHalCases(h), skwIfaceMask);
    forall k: bv32 ensures Meant(ToHalCases(h), skwIfaceMask, k) <==> HalMeant(h, skwIfaceMask, k) {
      HalBit(h, skwIfaceMask, k);
    }
  }

  datatype HalWidth = Width20 | Width40 | Width80 | Width160 | Width80P80 | WidthInvalid

  function ToHalBandWidth(skwWidth: bv16): (w: HalWidth)
    ensures (w.Width20? <==> skwWidth == 0) && (w.Width40? <==> skwWidth == 1) && (w.Width80? <==> skwWidth == 2)
    ensures (w.Width80P80? <==> skwWidth == 3) && (w.Width160? <==> skwWidth == 4)
  {
    match skwWidth
    case 0 => Width20
    case 1 => Width40
    case 2 => Width80
    case 3 => Width80P80
    case 4 => Width160
    case _ => WidthInvalid
  }

  datatype SkwChannel = SkwChannel(centerFreq: bv16, bandWidth: bv16, modes: bv16)

  datatype HalChannel = HalChannel(freq: bv16, width: HalWidth, modes: bv32)

  ghost predicate IsAnswer(h: HalBits, from: SkwChannel, to: HalChannel) {
    && to.freq == from.centerFreq
    && to.width == ToHalBandWidth(from.bandWidth)
    && forall k :: SingleBit(k) ==> (Has(to.modes, k) <==> HalMeant(h, from.modes as bv32, k))
  }

  method ToHalChannel(h: HalBits, from: SkwChannel) returns (to: HalChannel)
    requires HalBitsOk(h)
    ensures IsAnswer(h, from, to)
  {
    var modes := ToHalIfaceMask(h, from.modes as bv32);
    to := HalChannel(from.centerFreq, ToHalBandWidth(from.bandWidth), modes);
  }

  /** Copy what the driver answered, as far as the caller has room, and touch no other entry. */
  method CopyChannels(h: HalBits, answer: seq<SkwChannel>, maxSize: nat, channels: array<HalChannel>)
    returns (size: nat)
    requires HalBitsOk(h)
    requires maxSize <= channels.Length
    modifies channels
    ensures size == if |answer| > maxSize then maxSize else |answer|
    ensures forall i :: 0 <= i < size ==> IsAnswer(h, answer[i], channels[i])
    ensures forall i :: size <= i < channels.Length ==> channels[i] == old(channels[i])
  {
    size := if |answer| > maxSize then maxSize else |answer|;
    var i := 0;
    while i < size
      invariant 0 <= i <= size
      invariant forall j :: 0 <= j < i ==> IsAnswer(h, answer[j], channels[j])
      invariant forall j :: i <= j < channels.Length ==> channels[j] == old(channels[j])
    {
      var channel := ToHalChannel(h, answer[i]);
      channels[i] := channel;
      i := i + 1;
    }
  }
}
