/**
 * The x86-64 mapping from application memory to cfsan's shadow memory.
 *
 * Application memory is four fixed regions.  One shadow byte holds one bit
 * per application byte, so eight application bytes share a shadow byte:
 *
 *   shadow(app) = ((app & kShadowMask) + (kShadowOffs << kShadowScale)) >> kShadowScale
 *
 * With addresses as integers, `& kShadowMask` (a mask of the low 44 bits) is
 * `% (kShadowMask + 1)`, `<< kShadowScale` is `* 8` and `>> kShadowScale` is
 * `/ 8`; MaskIsLowBits, ShiftsAreScaling state these identities for 64-bit
 * bit-vectors.
 *
 * The mapping is 8:1 and, because regions 3 and 4 agree in their low 44 bits
 * at 0x7fffff600000 and 0xffffffffff600000, two regions share shadow bytes.
 */
module CfsanShadow {
  import opened Common

  const kApp1Start: uptr := 0x0000_0000_0000_0000
  const kApp1End: uptr := 0x0000_0100_0000_0000
  const kApp2Start: uptr := 0x0000_5500_0000_0000
  const kApp2End: uptr := 0x0000_5700_0000_0000
  const kApp3Start: uptr := 0x0000_7f00_0000_0000
  const kApp3End: uptr := 0x0000_8000_0000_0000
  const kApp4Start: uptr := 0xffff_ffff_ff60_0000
  const kApp4End: uptr := 0xffff_ffff_ff60_1000
  /** Shift amount of the mapping: one shadow byte per eight application bytes. */
  const kShadowScale: int := 3
  const kShadowMask: uptr := 0x0000_0fff_ffff_ffff
  const kShadowOffs: uptr := 0x0000_1200_0000_0000

  /** 1 << kShadowScale: application bytes per shadow byte. */
  const kShadowRatio: int := 8
  /** Size of the window [kShadowOffs, kShadowOffs + kShadowSpan) that every shadow address lies in. */
  const kShadowSpan: int := 0x0000_0200_0000_0000

  /** Region i as (start, end), half-open; None for every i outside 0..3. */
  function GetAppRegion(i: int): (r: Option<(uptr, uptr)>)
    ensures r.Some? <==> 0 <= i <= 3
    ensures r.Some? ==> r.value.0 < r.value.1
  {
    match i
    case 0 => Some((kApp1Start, kApp1End))
    case 1 => Some((kApp2Start, kApp2End))
    case 2 => Some((kApp3Start, kApp3End))
    case 3 => Some((kApp4Start, kApp4End))
    case _ => None
  }

  function RegionStart(i: int): uptr
    requires 0 <= i <= 3
  {
    GetAppRegion(i).value.0
  }

  function RegionEnd(i: int): uptr
    requires 0 <= i <= 3
  {
    GetAppRegion(i).value.1
  }

  predicate InRegion(i: int, m: int)
  {
    0 <= i <= 3 && RegionStart(i) <= m < RegionEnd(i)
  }

  /** Application memory is the union of the four getAppRegion ranges. */
  predicate IsAppMem(Mem: uptr): (b: bool)
    ensures b <==> InRegion(0, Mem) || InRegion(1, Mem) || InRegion(2, Mem) || InRegion(3, Mem)
  {
    // Mem >= kApp1Start always holds
    || Mem < kApp1End
    || (Mem >= kApp2Start && Mem < kApp2End)
    || (Mem >= kApp3Start && Mem < kApp3End)
    || (Mem >= kApp4Start && Mem < kApp4End)
  }

  function AppToShadow(App: uptr): (s: uptr)
    ensures kShadowOffs <= s < kShadowOffs + kShadowSpan
  {
    ((App % (kShadowMask + 1)) + kShadowOffs * kShadowRatio) / kShadowRatio
  }

  /** m lies in [appToShadow(start), appToShadow(end - 1)] for region i. */
  predicate InShadowOf(i: int, m: int)
  {
    0 <= i <= 3 && AppToShadow(RegionStart(i)) <= m <= AppToShadow(RegionEnd(i) - 1)
  }

  /** Shadow memory is the union of the four region shadow ranges, each with an inclusive upper end. */
  predicate IsShadowMem(Mem: uptr): (b: bool)
    ensures b <==> InShadowOf(0, Mem) || InShadowOf(1, Mem) || InShadowOf(2, Mem) || InShadowOf(3, Mem)
  {
    || (Mem >= AppToShadow(kApp1Start) && Mem <= AppToShadow(kApp1End - 1))
    || (Mem >= AppToShadow(kApp2Start) && Mem <= AppToShadow(kApp2End - 1))
    || (Mem >= AppToShadow(kApp3Start) && Mem <= AppToShadow(kApp3End - 1))
    || (Mem >= AppToShadow(kApp4Start) && Mem <= AppToShadow(kApp4End - 1))
  }

  /** The region index of an application address, -1 for any other address. */
  function RegionOf(m: uptr): (i: int)
    ensures -1 <= i <= 3
    ensures i >= 0 <==> IsAppMem(m)
    ensures i >= 0 ==> InRegion(i, m)
  {
    if m < kApp1End then 0
    else if kApp2Start <= m < kApp2End then 1
    else if kApp3Start <= m < kApp3End then 2
    else if kApp4Start <= m < kApp4End then 3
    else -1
  }

  /** What `& kShadowMask` removes from an address of region i (RegionBaseIsMaskedStart). */
  function RegionBase(i: int): (b: int)
    requires 0 <= i <= 3
  {
    match i
    case 0 => 0
    case 1 => 0x0000_5000_0000_0000
    case 2 => 0x0000_7000_0000_0000
    case _ => 0xffff_f000_0000_0000
  }

  lemma RegionBaseIsMaskedStart(i: int)
    requires 0 <= i <= 3
    ensures RegionBase(i) == RegionStart(i) - RegionStart(i) % (kShadowMask + 1)
    ensures RegionBase(i) % kShadowRatio == 0
  {
    var M := kShadowMask + 1;
    MaskDecomposition(RegionStart(i), RegionBase(i) / M, RegionStart(i) - RegionBase(i));
  }

  // ---------------------------------------------------------------------
  // The integer operations above are the source's bit operations.

  lemma MaskIsLowBits(a: bv64)
    ensures a & 0x0000_0fff_ffff_ffff == a % 0x0000_1000_0000_0000
  {
  }

  lemma ShiftsAreScaling(a: bv64)
    ensures a >> 3 == a / 8
    ensures (0x0000_1200_0000_0000 as bv64) << 3 == 0x0000_1200_0000_0000 * 8
  {
  }

  // ---------------------------------------------------------------------
  // Regions

  /** The four regions come in ascending order and do not overlap. */
  lemma RegionsAscending(i: int, j: int)
    requires 0 <= i < j <= 3
    ensures RegionEnd(i) < RegionStart(j)
  {
  }

  /** isAppMem holds exactly on the union of the getAppRegion ranges. */
  lemma IsAppMemIffInRegion(m: uptr)
    ensures IsAppMem(m) <==> exists i :: InRegion(i, m)
  {
    if IsAppMem(m) {
      assert InRegion(RegionOf(m), m);
    }
  }

  /** The first and last byte of each region are application memory, the bytes just outside are not. */
  lemma RegionBoundaries(i: int)
    requires 0 <= i <= 3
    ensures IsAppMem(RegionStart(i)) && IsAppMem(RegionEnd(i) - 1)
    ensures !IsAppMem(Wrap(RegionStart(i) - 1)) && !IsAppMem(RegionEnd(i))
  {
  }

  /** kApp1Start - 1 wraps to the highest address, which is not application memory. */
  lemma BelowFirstRegionWraps()
    ensures Wrap(kApp1Start - 1) == 0xffff_ffff_ffff_ffff
    ensures !IsAppMem(Wrap(kApp1Start - 1))
  {
  }

  // ---------------------------------------------------------------------
  // The mapping

  /** a % 2^44 == r (and a / 2^44 == q) once a is written as q * 2^44 + r with 0 <= r < 2^44. */
  lemma MaskDecomposition(a: int, q: int, r: int)
    requires 0 <= r <= kShadowMask && a == q * (kShadowMask + 1) + r
    ensures a % (kShadowMask + 1) == r && a / (kShadowMask + 1) == q
  {
  }

  /** a % 8 == r (and a / 8 == q) once a is written as q * 8 + r with 0 <= r < 8. */
  lemma RatioDecomposition(a: int, q: int, r: int)
    requires 0 <= r < kShadowRatio && a == q * kShadowRatio + r
    ensures a % kShadowRatio == r && a / kShadowRatio == q
  {
  }

  /** Inside a region the mask only strips the region's base: shadow is linear there. */
  lemma AppToShadowInRegion(i: int, a: uptr)
    requires 0 <= i <= 3 && RegionStart(i) <= a <= RegionEnd(i)
    requires i != 2 || a < RegionEnd(i)
    ensures RegionBase(i) % kShadowRatio == 0
    ensures AppToShadow(a) == (a - RegionBase(i)) / kShadowRatio + kShadowOffs
  {
    var M := kShadowMask + 1;
    RegionBaseIsMaskedStart(i);
    MaskDecomposition(a, RegionBase(i) / M, a - RegionBase(i));
    var x := a - RegionBase(i);
    RatioDecomposition(x + kShadowOffs * kShadowRatio, x / kShadowRatio + kShadowOffs, x % kShadowRatio);
  }

  /** The eight bytes of an aligned group share one shadow byte. */
  lemma AlignedGroupSharesShadow(a: uptr, k: int)
    requires 0 <= k < kShadowRatio
    ensures a - a % kShadowRatio + k < WORD
    ensures AppToShadow(a - a % kShadowRatio + k) == AppToShadow(a)
  {
    var M := kShadowMask + 1;
    var q, r := a / M, a % M;
    var g := r / kShadowRatio;
    RatioDecomposition(r, g, r % kShadowRatio);
    RatioDecomposition(a, q * (M / kShadowRatio) + g, r % kShadowRatio);
    var b := a - a % kShadowRatio + k;
    MaskDecomposition(b, q, g * kShadowRatio + k);
    RatioDecomposition(r + kShadowOffs * kShadowRatio, g + kShadowOffs, r % kShadowRatio);
    RatioDecomposition(g * kShadowRatio + k + kShadowOffs * kShadowRatio, g + kShadowOffs, k);
  }

  /** Eight bytes further inside the same region is the next shadow byte. */
  lemma AppToShadowNextGroup(i: int, a: uptr)
    requires InRegion(i, a) && InRegion(i, a + kShadowRatio)
    ensures AppToShadow(a + kShadowRatio) == AppToShadow(a) + 1
  {
    AppToShadowInRegion(i, a);
    AppToShadowInRegion(i, a + kShadowRatio);
  }

  /**
   * Regions 3 and 4 alias after masking: the first vsyscall byte and a
   * library/stack byte have the same shadow byte, so the mapping has no
   * inverse on application memory.
   */
  lemma Region3And4Alias()
    ensures IsAppMem(0x0000_7fff_ff60_0000) && IsAppMem(0xffff_ffff_ff60_0000)
    ensures AppToShadow(0x0000_7fff_ff60_0000) == AppToShadow(0xffff_ffff_ff60_0000)
  {
  }

  // ---------------------------------------------------------------------
  // Shadow memory

  /**
   * A shadow address is a 45-bit value: the mask drops its bit 44, so the
   * shadow of shadow memory lands in [0x124000000000, 0x128000000000).
   */
  lemma ShadowOfShadow(s: uptr)
    requires kShadowOffs <= s < kShadowOffs + kShadowSpan
    ensures AppToShadow(s) == (s - (kShadowMask + 1)) / kShadowRatio + kShadowOffs
    ensures 0x0000_1240_0000_0000 <= AppToShadow(s) < 0x0000_1280_0000_0000
  {
    MaskDecomposition(s, 1, s - (kShadowMask + 1));
    var x := s - (kShadowMask + 1);
    RatioDecomposition(x + kShadowOffs * kShadowRatio, x / kShadowRatio + kShadowOffs, x % kShadowRatio);
  }

  /** The ranges isShadowMem tests, written out (they are for scale 3). */
  lemma ShadowRanges()
    ensures AppToShadow(kApp1Start) == 0x0000_1200_0000_0000
    ensures AppToShadow(kApp1End - 1) == 0x0000_121f_ffff_ffff
    ensures AppToShadow(kApp2Start) == 0x0000_12a0_0000_0000
    ensures AppToShadow(kApp2End - 1) == 0x0000_12df_ffff_ffff
    ensures AppToShadow(kApp3Start) == 0x0000_13e0_0000_0000
    ensures AppToShadow(kApp3End - 1) == 0x0000_13ff_ffff_ffff
    ensures AppToShadow(kApp4Start) == 0x0000_13ff_ffec_0000
    ensures AppToShadow(kApp4End - 1) == 0x0000_13ff_ffec_01ff
  {
    AppToShadowInRegion(0, kApp1Start);
    AppToShadowInRegion(0, kApp1End - 1);
    AppToShadowInRegion(1, kApp2Start);
    AppToShadowInRegion(1, kApp2End - 1);
    AppToShadowInRegion(2, kApp3Start);
    AppToShadowInRegion(2, kApp3End - 1);
    AppToShadowInRegion(3, kApp4Start);
    AppToShadowInRegion(3, kApp4End - 1);
  }

  /** Application memory is never shadow memory; its shadow is, and shadow of shadow is not. */
  lemma AppAndShadowDisjoint(a: uptr)
    requires IsAppMem(a)
    ensures !IsShadowMem(a)
    ensures IsShadowMem(AppToShadow(a))
    ensures !IsShadowMem(AppToShadow(AppToShadow(a)))
  {
    ShadowRanges();
    var i := RegionOf(a);
    AppToShadowInRegion(i, a);
    AppToShadowInRegion(i, RegionStart(i));
    AppToShadowInRegion(i, RegionEnd(i) - 1);
    ShadowOfShadow(AppToShadow(a));
  }

  /** isShadowMem's i-th range, with its inclusive upper end, is exactly the image of region i. */
  lemma RegionImage(i: int, m: uptr)
    requires 0 <= i <= 3
    ensures (AppToShadow(RegionStart(i)) <= m <= AppToShadow(RegionEnd(i) - 1))
        <==> exists a: uptr :: InRegion(i, a) && AppToShadow(a) == m
  {
    AppToShadowInRegion(i, RegionStart(i));
    AppToShadowInRegion(i, RegionEnd(i) - 1);
    if AppToShadow(RegionStart(i)) <= m <= AppToShadow(RegionEnd(i) - 1) {
      var a: uptr := (m - kShadowOffs) * kShadowRatio + RegionBase(i);
      AppToShadowInRegion(i, a);
      assert InRegion(i, a) && AppToShadow(a) == m;
    } else {
      forall a: uptr | InRegion(i, a)
        ensures AppToShadow(a) != m
      {
        AppToShadowInRegion(i, a);
      }
    }
  }

  /** isShadowMem holds exactly on the shadow of application memory. */
  lemma ShadowMemIsImage(m: uptr)
    ensures IsShadowMem(m) <==> exists a: uptr :: IsAppMem(a) && AppToShadow(a) == m
  {
    RegionImage(0, m);
    RegionImage(1, m);
    RegionImage(2, m);
    RegionImage(3, m);
    if exists a: uptr :: IsAppMem(a) && AppToShadow(a) == m {
      var a: uptr :| IsAppMem(a) && AppToShadow(a) == m;
      assert InRegion(RegionOf(a), a);
    }
  }

  /** The sanity checks initializeShadow makes for region i; all hold. */
  lemma ShadowMappingChecks(i: int, AppStart: uptr, AppEnd: uptr)
    requires GetAppRegion(i) == Some((AppStart, AppEnd))
    ensures IsAppMem(AppStart)
    ensures !IsAppMem(Wrap(AppStart - 1))
    ensures IsAppMem(AppEnd - 1)
    ensures !IsAppMem(AppEnd)
    ensures !IsShadowMem(AppStart)
    ensures !IsShadowMem(AppEnd - 1)
    ensures IsShadowMem(AppToShadow(AppStart))
    ensures IsShadowMem(AppToShadow(AppEnd - 1))
    ensures !IsShadowMem(AppToShadow(AppToShadow(AppStart)))
    ensures !IsShadowMem(AppToShadow(AppToShadow(AppEnd - 1)))
  {
    RegionBoundaries(i);
    AppAndShadowDisjoint(AppStart);
    AppAndShadowDisjoint(AppEnd - 1);
  }
}
