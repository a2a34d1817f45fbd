/**
 * The cfsan run-time: the shadow bitmap update processRangeAccess, the
 * forwarding helpers processMemAccess and processUnalignedAccess, and the
 * once-only initialisation with the sanity checks of the shadow mapping.
 *
 * The shadow memory is the window of CfsanCoverage, held in an array:
 * Shadow[k] is the byte at shadow address kShadowOffs + k.  A C `byte *`
 * into the window is modelled by its index.
 */
module Cfsan {
  import opened Common
  import opened CfsanShadow
  import opened CfsanCoverage

  // ---------------------------------------------------------------------
  // The CHECKs of processRangeAccess

  /**
   * The CHECK after the head byte, as written: the shadow byte of the next
   * group boundary must be the one after the shadow byte of Addr.  It is
   * evaluated whenever Addr is not aligned, even when the range ends
   * inside the first group.
   */
  predicate HeadCheckAsWritten(Addr: uptr): (b: bool)
    ensures Addr % kShadowRatio == 0 ==> b
  {
    Addr % kShadowRatio == 0
    || AppToShadow(Wrap(Addr - Addr % kShadowRatio + kShadowRatio)) == AppToShadow(Addr) + 1
  }

  /** The same CHECK made only when bytes remain after the head, which is when the cursor is used again. */
  predicate HeadCheckCorrected(Addr: uptr, Size: int)
  {
    Addr % kShadowRatio == 0
    || Size <= kShadowRatio - Addr % kShadowRatio
    || AppToShadow(Wrap(Addr - Addr % kShadowRatio + kShadowRatio)) == AppToShadow(Addr) + 1
  }

  /** The shadow cursor agrees with appToShadow at every group start of a region. */
  lemma ShadowCursorInRegion(r: int, addr: uptr, idx: int)
    requires 0 <= r <= 3 && RegionStart(r) <= addr <= RegionEnd(r) && (r != 2 || addr < RegionEnd(r))
    requires GroupStart(RegionBase(r), idx) == addr
    ensures AppToShadow(addr) == kShadowOffs + idx
  {
    AppToShadowInRegion(r, addr);
    RatioDecomposition(addr - RegionBase(r), idx, 0);
  }

  /** The window index of a group start of a region lies inside the window. */
  lemma GroupInWindow(r: int, addr: uptr, idx: int)
    requires InRegion(r, addr) && GroupStart(RegionBase(r), idx) == addr
    ensures 0 <= idx < kShadowSpan
  {
    ShadowCursorInRegion(r, addr, idx);
  }

  /** The next group boundary after an application address is at most the end of its region. */
  lemma NextBoundaryInRegion(Addr: uptr)
    requires IsAppMem(Addr)
    ensures Addr - Addr % kShadowRatio + kShadowRatio <= RegionEnd(RegionOf(Addr))
  {
    var E := RegionEnd(RegionOf(Addr));
    RatioDecomposition(E, E / kShadowRatio, 0);
    RatioDecomposition(Addr, Addr / kShadowRatio, Addr % kShadowRatio);
  }

  /**
   * The CHECK as written fails exactly when Addr is not aligned and its
   * group is the last one below kApp3End: the next boundary is masked to
   * the bottom of the shadow window instead of one past Addr's shadow byte.
   */
  lemma HeadCheckFailsExactlyAtApp3End(Addr: uptr)
    requires IsAppMem(Addr)
    ensures !HeadCheckAsWritten(Addr)
        <==> Addr % kShadowRatio != 0 && Addr - Addr % kShadowRatio + kShadowRatio == kApp3End
  {
    var r := RegionOf(Addr);
    var Mod := Addr % kShadowRatio;
    if Mod != 0 {
      NextBoundaryInRegion(Addr);
      var next := Addr - Mod + kShadowRatio;
      ByteInItsGroup(r, Addr);
      if r != 2 || next < RegionEnd(r) {
        ShadowCursorInRegion(r, next, ShadowIndex(Addr) + 1);
      } else {
        AppToShadowInRegion(r, Addr);
        MaskDecomposition(next, 8, 0);
      }
    }
  }

  /** Addr = 0x7fff_ffff_fff9 with Size = 1 is a valid one-byte access on which the CHECK as written fails. */
  lemma HeadCheckFailsOnLastGroupOfApp3()
    ensures ValidRange(0x7fff_ffff_fff9, 1)
    ensures !HeadCheckAsWritten(0x7fff_ffff_fff9)
  {
    HeadCheckFailsExactlyAtApp3End(0x7fff_ffff_fff9);
  }

  /**
   * A range of at least one group never fails the CHECK as written: an
   * unaligned Addr whose next boundary is kApp3End has fewer than eight
   * bytes left in its region.
   */
  lemma HeadCheckHoldsForWideRanges(Addr: uptr, Size: int)
    requires ValidRange(Addr, Size) && kShadowRatio <= Size
    ensures HeadCheckAsWritten(Addr)
  {
    HeadCheckFailsExactlyAtApp3End(Addr);
  }

  /** Made only when bytes remain, the CHECK holds for every access inside one region. */
  lemma HeadCheckCorrectedHolds(Addr: uptr, Size: int)
    requires ValidRange(Addr, Size)
    ensures HeadCheckCorrected(Addr, Size)
  {
    HeadCheckFailsExactlyAtApp3End(Addr);
  }

  /**
   * The three guards of processRangeAccess as written, `Mod + Size >= 8`,
   * `i + 32 < Size` and `i + 8 < Size`, with the C `int` sum taken modulo
   * 2^32 as a two's-complement machine does once it overflows.
   */
  predicate HeadGuardAsWritten(Mod: int32, Size: int32)
  {
    Wrap32(Mod + Size) >= kShadowRatio
  }

  predicate WordGuardAsWritten(i: int32, Size: int32)
  {
    Wrap32(i + 32) < Size
  }

  predicate ByteGuardAsWritten(i: int32, Size: int32)
  {
    Wrap32(i + 8) < Size
  }

  /**
   * A valid range of 0x7fff_ffff bytes makes every guard overflow.  At
   * Addr = 0 the word loop passes i = 0, 32, ... 0x7fff_ffc0 and reaches
   * 0x7fff_ffe0, where `i + 32` is no C `int`; wrapped, the guard still
   * holds, so the loop goes on storing past the end of the range.  The byte loop's `i + 8`
   * does the same at 0x7fff_fff8.  At Addr = 1, `Mod + Size` wraps below 8
   * and sends the access into the branch that shifts `1U` by Size.
   */
  lemma GuardsOverflowAsWritten()
    ensures ValidRange(0, 0x7fff_ffff) && ValidRange(1, 0x7fff_ffff)
    ensures forall i: int32 | 0 <= i <= 0x7fff_ffc0 :: WordGuardAsWritten(i, 0x7fff_ffff)
    ensures !FitsInt32(0x7fff_ffe0 + 32) && WordGuardAsWritten(0x7fff_ffe0, 0x7fff_ffff)
    ensures !FitsInt32(0x7fff_fff8 + 8) && ByteGuardAsWritten(0x7fff_fff8, 0x7fff_ffff)
    ensures !FitsInt32(1 + 0x7fff_ffff) && !HeadGuardAsWritten(1, 0x7fff_ffff)
  {
    forall i: int32 | 0 <= i <= 0x7fff_ffc0
      ensures WordGuardAsWritten(i, 0x7fff_ffff)
    {
      assert FitsInt32(i + 32);
    }
  }

  /**
   * The guards as the model makes them, `Size >= 8 - Mod` and
   * `Size - i > 32` (or 8), never overflow for a non-negative i and Size,
   * and agree with the unbounded reading of the guards as written.
   */
  lemma GuardsCorrected(Mod: int32, i: int32, Size: int32)
    requires 0 < Mod < kShadowRatio && 0 <= i && 0 <= Size
    ensures FitsInt32(kShadowRatio - Mod) && FitsInt32(Size - i)
    ensures Size >= Sub32(kShadowRatio, Mod) <==> Mod + Size >= kShadowRatio
    ensures Sub32(Size, i) > 32 <==> i + 32 < Size
    ensures Sub32(Size, i) > 8 <==> i + 8 < Size
  {
  }

  // ---------------------------------------------------------------------
  // The phases of processRangeAccess

  /**
   * What processRangeAccess has done once it reaches byte i of the range
   * (address addr, shadow index idx, at a group boundary): the bits of
   * [Addr, Addr + i) are set, or of the whole range once i passes Size.
   * Base is what the mask strips from the addresses of Addr's region.
   */
  ghost predicate Progress(t: seq<bv8>, s0: seq<bv8>, Base: int, Addr: int, Size: int, i: int, addr: int, idx: int)
  {
    && |t| == |s0| == kShadowSpan
    && 0 <= i && addr == Addr + i
    && GroupStart(Base, idx) == addr
    && Marked(t, s0, Base, Addr, if i < Size then addr else Addr + Size)
  }

  /** An aligned range starts at the first bit of Addr's shadow byte, with nothing set yet. */
  lemma AlignedStart(s0: seq<bv8>, Addr: uptr, Size: int)
    requires ValidRange(Addr, Size) && |s0| == kShadowSpan && Addr % kShadowRatio == 0
    ensures Progress(s0, s0, RegionBase(RegionOf(Addr)), Addr, Size, 0, Addr, ShadowIndex(Addr))
  {
    ByteInItsGroup(RegionOf(Addr), Addr);
  }

  /**
   * The head mask, computed as processRangeAccess does for a range that
   * starts Mod bytes into a group: bits Mod .. min(Mod + Size, 8) - 1.
   * The test is made as `Size >= 8 - Mod`, which no C `int` Size overflows.
   */
  method ComputeHeadMask(Mod: int32, Size: int32) returns (Mask: bv8)
    requires 0 < Mod < kShadowRatio && 0 <= Size
    ensures forall j | 0 <= j < 8 :: Bit(Mask, j) <==> Mod <= j < Mod + Size
  {
    if Size >= Sub32(kShadowRatio, Mod) {
      Mask := 0xff << Mod;
    } else {
      Mask := ((1 << Size) - 1) << Mod;
    }
    assert Mask == HeadMask(Mod, Size);
  }

  /** The tail mask, computed as processRangeAccess does for the last n bytes: the low n bits. */
  method ComputeTailMask(n: int32) returns (Mask: bv8)
    requires 0 < n <= kShadowRatio
    ensures forall j | 0 <= j < 8 :: Bit(Mask, j) <==> j < n
  {
    Mask := (1 << n) - 1;
    assert Mask == TailMask(n);
  }

  /**
   * The head phase: OR-ing the head mask into the shadow byte of Addr
   * records the bytes of the range up to the next group boundary, where
   * the cursor then stands.
   */
  lemma HeadStep(t: seq<bv8>, s0: seq<bv8>, Base: int, Addr: int, Size: int, Mod: int, idx: int, m: bv8)
    requires |s0| == kShadowSpan && 0 <= idx < kShadowSpan && 0 < Mod < kShadowRatio && 0 <= Size
    requires GroupStart(Base, idx) + Mod == Addr
    requires forall j | 0 <= j < 8 :: Bit(m, j) <==> Mod <= j < Mod + Size
    requires t == s0[idx := s0[idx] | m]
    ensures Progress(t, s0, Base, Addr, Size, kShadowRatio - Mod, Addr - Mod + kShadowRatio, idx + 1)
  {
    var h := if kShadowRatio - Mod < Size then Addr - Mod + kShadowRatio else Addr + Size;
    assert Marked(s0, s0, Base, Addr, Addr);
    MarkExtend(s0, s0, Base, Addr, Addr, h, idx, m);
  }

  /**
   * Where the head phase leaves the cursor: at the next group boundary
   * addr, inside the region.  The CHECK made there fails only for a range
   * that ends inside Addr's group, which the head has then recorded in full.
   */
  lemma HeadCheck(Addr: uptr, Size: int, addr: int, idx: int)
    requires ValidRange(Addr, Size) && Addr % kShadowRatio != 0
    requires addr == Addr + (kShadowRatio - Addr % kShadowRatio) && idx == ShadowIndex(Addr) + 1
    ensures addr <= RegionEnd(RegionOf(Addr))
    ensures HeadCheckAsWritten(Addr) <==> AppToShadow(addr) == kShadowOffs + idx
    ensures !HeadCheckAsWritten(Addr) ==> Size <= kShadowRatio - Addr % kShadowRatio
  {
    ByteInItsGroup(RegionOf(Addr), Addr);
    NextBoundaryInRegion(Addr);
    HeadCheckFailsExactlyAtApp3End(Addr);
  }

  /** The group start of the shadow byte of Addr, as HeadStep needs it. */
  lemma HeadGroup(Addr: uptr)
    requires IsAppMem(Addr)
    ensures GroupStart(RegionBase(RegionOf(Addr)), ShadowIndex(Addr)) + Addr % kShadowRatio == Addr
  {
    ByteInItsGroup(RegionOf(Addr), Addr);
  }

  /** Once i has passed Size the whole range is recorded. */
  lemma PastTheEnd(t: seq<bv8>, s0: seq<bv8>, Addr: uptr, Size: int, i: int, addr: int, idx: int)
    requires IsAppMem(Addr) && Progress(t, s0, RegionBase(RegionOf(Addr)), Addr, Size, i, addr, idx) && Size <= i
    ensures Accessed(t, s0, Addr, Size)
  {
  }

  /** One turn of the word loop: four whole groups set to all ones, the cursor four bytes on. */
  lemma WordStep(t: seq<bv8>, s0: seq<bv8>, Addr: uptr, Size: int, i: int, addr: int, idx: int)
    requires ValidRange(Addr, Size)
    requires Progress(t, s0, RegionBase(RegionOf(Addr)), Addr, Size, i, addr, idx) && i + 32 < Size
    ensures 0 <= idx && idx + 4 <= kShadowSpan && addr + 32 < WORD
    ensures Progress(t[idx := 0xff][idx + 1 := 0xff][idx + 2 := 0xff][idx + 3 := 0xff], s0,
                     RegionBase(RegionOf(Addr)), Addr, Size, i + 32, addr + 32, idx + 4)
  {
    ByteStep(t, s0, Addr, Size, i, addr, idx);
    ByteStep(t[idx := 0xff], s0, Addr, Size, i + 8, addr + 8, idx + 1);
    ByteStep(t[idx := 0xff][idx + 1 := 0xff], s0, Addr, Size, i + 16, addr + 16, idx + 2);
    ByteStep(t[idx := 0xff][idx + 1 := 0xff][idx + 2 := 0xff], s0, Addr, Size, i + 24, addr + 24, idx + 3);
  }

  /** One turn of the byte loop: one whole group set to all ones, the cursor one byte on. */
  lemma ByteStep(t: seq<bv8>, s0: seq<bv8>, Addr: uptr, Size: int, i: int, addr: int, idx: int)
    requires ValidRange(Addr, Size)
    requires Progress(t, s0, RegionBase(RegionOf(Addr)), Addr, Size, i, addr, idx) && i + 8 < Size
    ensures 0 <= idx < kShadowSpan && addr + 8 < WORD
    ensures Progress(t[idx := 0xff], s0, RegionBase(RegionOf(Addr)), Addr, Size, i + 8, addr + 8, idx + 1)
  {
    var r := RegionOf(Addr);
    SameRegion(Addr, Size, addr + 8);
    GroupInWindow(r, addr, idx);
    MarkFullGroup(t, s0, RegionBase(r), Addr, idx);
  }

  /**
   * The CHECKs after the loops hold while bytes remain: the cursor is
   * appToShadow of the address reached, inside the window.
   */
  lemma CheckAfterLoop(Addr: uptr, Size: int, addr: uptr, idx: int)
    requires ValidRange(Addr, Size) && Addr <= addr < Addr + Size
    requires GroupStart(RegionBase(RegionOf(Addr)), idx) == addr
    ensures AppToShadow(addr) == kShadowOffs + idx && 0 <= idx < kShadowSpan
  {
    SameRegion(Addr, Size, addr);
    ShadowCursorInRegion(RegionOf(Addr), addr, idx);
    GroupInWindow(RegionOf(Addr), addr, idx);
  }

  /** The tail: OR-ing the low Size - i bits (1 to 8) into the last shadow byte completes the range. */
  lemma TailStep(t: seq<bv8>, u: seq<bv8>, s0: seq<bv8>, Base: int, Addr: uptr, Size: int, i: int, addr: int, idx: int, m: bv8)
    requires Progress(u, s0, Base, Addr, Size, i, addr, idx) && i < Size <= i + kShadowRatio && 0 <= idx < |u|
    requires forall j | 0 <= j < 8 :: Bit(m, j) <==> j < Size - i
    requires t == u[idx := u[idx] | m]
    requires IsAppMem(Addr) && Base == RegionBase(RegionOf(Addr))
    ensures Accessed(t, s0, Addr, Size)
  {
    MarkExtend(u, s0, Base, Addr, addr, Addr + Size, idx, m);
  }

  // ---------------------------------------------------------------------
  // The run-time state

  /**
   * The shadow range initializeShadow maps for region i:
   * [appToShadow(start), appToShadow(end - 1) + 1).
   */
  function ShadowRange(i: int): (r: (uptr, uptr))
    requires 0 <= i <= 3
    ensures kShadowOffs <= r.0 < r.1 <= kShadowOffs + kShadowSpan
  {
    ShadowRanges();
    (AppToShadow(RegionStart(i)), AppToShadow(RegionEnd(i) - 1) + 1)
  }

  /** The mapped range of region i is exactly the shadow of that region: no more, no less. */
  lemma ShadowRangeIsImage(i: int, m: uptr)
    requires 0 <= i <= 3
    ensures ShadowRange(i).0 <= m < ShadowRange(i).1 <==> exists a: uptr :: InRegion(i, a) && AppToShadow(a) == m
  {
    RegionImage(i, m);
  }

  /** The (address, length) initializeShadow passes to mmap for region i. */
  function Mapping(i: int): (uptr, uptr)
    requires 0 <= i <= 3
  {
    (ShadowRange(i).0, ShadowRange(i).1 - ShadowRange(i).0)
  }

  /** The arguments initializeShadow computes from region i's bounds are Mapping(i). */
  lemma MappingOfRegion(i: int, AppStart: uptr, AppEnd: uptr)
    requires GetAppRegion(i) == Some((AppStart, AppEnd))
    ensures AppStart <= AppEnd - 1 && AppToShadow(AppStart) < AppToShadow(AppEnd - 1) + 1
    ensures Mapping(i) == (AppToShadow(AppStart), AppToShadow(AppEnd - 1) + 1 - AppToShadow(AppStart))
  {
    assert AppStart == RegionStart(i) && AppEnd == RegionEnd(i);
    var r := ShadowRange(i);
    assert r == (AppToShadow(AppStart), AppToShadow(AppEnd - 1) + 1);
  }

  /** The mmap requests for regions 0 .. n - 1, in order. */
  function ShadowMappings(n: int): (ms: seq<(uptr, uptr)>)
    requires 0 <= n <= 4
    ensures |ms| == n && forall j | 0 <= j < n :: ms[j] == Mapping(j)
  {
    if n == 0 then [] else ShadowMappings(n - 1) + [Mapping(n - 1)]
  }

  /** Recording one more mapping extends the recorded requests by region i's. */
  lemma AppendMapping(m: seq<(uptr, uptr)>, i: int)
    requires 0 <= i <= 3
    ensures m + ShadowMappings(i) + [Mapping(i)] == m + ShadowMappings(i + 1)
  {
    assert ShadowMappings(i + 1) == ShadowMappings(i) + [Mapping(i)];
  }

  /** mmap placed region i's shadow where it was asked to. */
  predicate Landed(Mmap: (uptr, uptr) -> uptr, i: int)
    requires 0 <= i <= 3
  {
    Mmap(Mapping(i).0, Mapping(i).1) == Mapping(i).0
  }

  /**
   * How far initializeShadow gets from region k on, given what mmap
   * returns: the first region whose shadow does not land where asked, or
   * 4 when all do.
   */
  function MappedCount(Mmap: (uptr, uptr) -> uptr, k: int): (n: int)
    requires 0 <= k <= 4
    ensures k <= n <= 4
    ensures forall j | k <= j < n :: Landed(Mmap, j)
    ensures n < 4 ==> !Landed(Mmap, n)
    decreases 4 - k
  {
    if k == 4 then 4
    else if !Landed(Mmap, k) then k
    else MappedCount(Mmap, k + 1)
  }

  /** A mapping that lands passes the count on to the next region. */
  lemma MappedCountStep(Mmap: (uptr, uptr) -> uptr, i: int)
    requires 0 <= i <= 3 && Landed(Mmap, i)
    ensures MappedCount(Mmap, i) == MappedCount(Mmap, i + 1)
  {
  }

  /** A mapping that does not land stops the count there. */
  lemma MappedCountStop(Mmap: (uptr, uptr) -> uptr, i: int)
    requires 0 <= i <= 3 && !Landed(Mmap, i)
    ensures MappedCount(Mmap, i) == i
  {
  }

  /** The shadow range initializeShadow computes for the application range [AppStart, AppEnd) of region i. */
  method ShadowBounds(ghost i: int, AppStart: uptr, AppEnd: uptr) returns (ShStart: uptr, ShEnd: uptr)
    requires GetAppRegion(i) == Some((AppStart, AppEnd))
    ensures ShStart < ShEnd && (ShStart, ShEnd - ShStart) == Mapping(i)
  {
    MappingOfRegion(i, AppStart, AppEnd);
    ShStart := AppToShadow(AppStart);
    ShEnd := AppToShadow(AppEnd - 1) + 1;
  }

  /**
   * The sanity CHECKs initializeShadow makes after mapping region i;
   * Died reports that one fails, which never happens.
   */
  method CheckShadowMapping(ghost i: int, AppStart: uptr, AppEnd: uptr) returns (Died: bool)
    requires GetAppRegion(i) == Some((AppStart, AppEnd))
    ensures !Died
  {
    ShadowMappingChecks(i, AppStart, AppEnd);
    Died := !IsAppMem(AppStart) || IsAppMem(Wrap(AppStart - 1))
         || !IsAppMem(AppEnd - 1) || IsAppMem(AppEnd)
         || IsShadowMem(AppStart) || IsShadowMem(AppEnd - 1)
         || !IsShadowMem(AppToShadow(AppStart)) || !IsShadowMem(AppToShadow(AppEnd - 1))
         || IsShadowMem(AppToShadow(AppToShadow(AppStart)))
         || IsShadowMem(AppToShadow(AppToShadow(AppEnd - 1)));
  }

  class Runtime {
    /** The global `CfsanIsInitialized`. */
    var CfsanIsInitialized: bool
    /** The shadow window; each byte holds the touched bits of eight application bytes. */
    const Shadow: array<bv8>
    /** The (address, length) of every shadow mapping made so far, in order. */
    var Mapped: seq<(uptr, uptr)>

    /** The state at program start: not initialised, all shadow bytes zero. */
    constructor()
      ensures !CfsanIsInitialized && Shadow.Length == kShadowSpan && fresh(Shadow) && Mapped == []
      ensures forall k | 0 <= k < kShadowSpan :: Shadow[k] == 0
    {
      CfsanIsInitialized := false;
      Shadow := new bv8[kShadowSpan](_ => 0);
      Mapped := [];
    }

    /**
     * processRangeAccess: set the bit of every byte of [Addr, Addr + Size)
     * and no other.  Died reports that one of its CHECKs fired; only the
     * one after the head byte can (HeadCheckFailsExactlyAtApp3End), and by
     * then the whole range has been recorded.  The four phases of the
     * source (head bits, whole words, whole bytes, tail bits) are the four
     * methods below; the two CHECKs between them are the asserts.
     */
    method ProcessRangeAccess(PC: uptr, Addr: uptr, Size: int32, IsWrite: bool) returns (Died: bool)
      requires ValidRange(Addr, Size) && Shadow.Length == kShadowSpan
      modifies Shadow
      ensures Accessed(Shadow[..], old(Shadow[..]), Addr, Size)
      ensures Died <==> !HeadCheckAsWritten(Addr)
    {
      ghost var s0 := Shadow[..];
      var i, addr, idx;
      i, addr, idx, Died := WriteHeadBits(Addr, Size);
      if Died {
        return;
      }
      i, addr, idx := WriteWords(s0, Addr, Size, i, addr, idx);
      assert AppToShadow(addr) == kShadowOffs + idx;
      i, addr, idx := WriteBytes(s0, Addr, Size, i, addr, idx);
      assert AppToShadow(addr) == kShadowOffs + idx;
      WriteTailBits(s0, Addr, Size, i, addr, idx);
    }

    /**
     * The head of processRangeAccess: when Addr is not group-aligned, OR
     * the head mask into its shadow byte and move on to the next group;
     * Died is the CHECK that follows.
     */
    method WriteHeadBits(Addr: uptr, Size: int32) returns (i: int32, addr: uptr, idx: int, Died: bool)
      requires ValidRange(Addr, Size) && Shadow.Length == kShadowSpan
      modifies Shadow
      ensures Died <==> !HeadCheckAsWritten(Addr)
      ensures Died ==> Accessed(Shadow[..], old(Shadow[..]), Addr, Size)
      ensures !Died ==> Progress(Shadow[..], old(Shadow[..]), RegionBase(RegionOf(Addr)), Addr, Size, i, addr, idx)
      ensures !Died ==> (Size <= i ==> AppToShadow(addr) == kShadowOffs + idx)
    {
      ghost var s0 := Shadow[..];
      ghost var Base := RegionBase(RegionOf(Addr));
      i := 0;
      addr := Addr;
      idx := ShadowIndex(Addr);
      Died := false;
      var Mod: int32 := Addr % kShadowRatio;
      if Mod != 0 {
        var Mask := ComputeHeadMask(Mod, Size);
        HeadGroup(Addr);
        Shadow[idx] := Shadow[idx] | Mask;
        HeadStep(Shadow[..], s0, Base, Addr, Size, Mod, idx, Mask);
        HeadCheck(Addr, Size, Addr + (kShadowRatio - Mod), idx + 1);
        addr := addr + (kShadowRatio - Mod);
        i := i + (kShadowRatio - Mod) as int32;
        idx := idx + 1;
        if AppToShadow(addr) != kShadowOffs + idx {
          PastTheEnd(Shadow[..], s0, Addr, Size, i, addr, idx);
          Died := true;
        }
      } else {
        AlignedStart(s0, Addr, Size);
      }
    }

    /** The word loop: whole runs of 32 bytes, four shadow bytes at a time set to all ones. */
    method WriteWords(ghost s0: seq<bv8>, Addr: uptr, Size: int32, i0: int32, addr0: uptr, idx0: int)
      returns (i: int32, addr: uptr, idx: int)
      requires ValidRange(Addr, Size) && Shadow.Length == kShadowSpan
      requires Progress(Shadow[..], s0, RegionBase(RegionOf(Addr)), Addr, Size, i0, addr0, idx0)
      requires Size <= i0 ==> AppToShadow(addr0) == kShadowOffs + idx0
      modifies Shadow
      ensures Progress(Shadow[..], s0, RegionBase(RegionOf(Addr)), Addr, Size, i, addr, idx)
      ensures Size <= i + 32 && AppToShadow(addr) == kShadowOffs + idx
    {
      i, addr, idx := i0, addr0, idx0;
      while Sub32(Size, i) > 32
        invariant Progress(Shadow[..], s0, RegionBase(RegionOf(Addr)), Addr, Size, i, addr, idx)
        invariant Size <= i ==> AppToShadow(addr) == kShadowOffs + idx
      {
        ghost var t := Shadow[..];
        WordStep(t, s0, Addr, Size, i, addr, idx);
        Shadow[idx] := 0xff;
        Shadow[idx + 1] := 0xff;
        Shadow[idx + 2] := 0xff;
        Shadow[idx + 3] := 0xff;
        assert Shadow[..] == t[idx := 0xff][idx + 1 := 0xff][idx + 2 := 0xff][idx + 3 := 0xff];
        addr := addr + 32;
        i := i + 32;
        idx := idx + 4;
      }
      if i < Size {
        CheckAfterLoop(Addr, Size, addr, idx);
      }
    }

    /** The byte loop: whole groups of 8 bytes, one shadow byte at a time set to all ones. */
    method WriteBytes(ghost s0: seq<bv8>, Addr: uptr, Size: int32, i0: int32, addr0: uptr, idx0: int)
      returns (i: int32, addr: uptr, idx: int)
      requires ValidRange(Addr, Size) && Shadow.Length == kShadowSpan
      requires Progress(Shadow[..], s0, RegionBase(RegionOf(Addr)), Addr, Size, i0, addr0, idx0)
      requires AppToShadow(addr0) == kShadowOffs + idx0
      modifies Shadow
      ensures Progress(Shadow[..], s0, RegionBase(RegionOf(Addr)), Addr, Size, i, addr, idx)
      ensures Size <= i + 8 && AppToShadow(addr) == kShadowOffs + idx
    {
      i, addr, idx := i0, addr0, idx0;
      while Sub32(Size, i) > 8
        invariant Progress(Shadow[..], s0, RegionBase(RegionOf(Addr)), Addr, Size, i, addr, idx)
        invariant Size <= i ==> AppToShadow(addr) == kShadowOffs + idx
      {
        ByteStep(Shadow[..], s0, Addr, Size, i, addr, idx);
        Shadow[idx] := 0xff;
        addr := addr + 8;
        i := i + 8;
        idx := idx + 1;
      }
      if i < Size {
        CheckAfterLoop(Addr, Size, addr, idx);
      }
    }

    /** The tail: OR the low Size - i bits into the last shadow byte, if any bytes remain. */
    method WriteTailBits(ghost s0: seq<bv8>, Addr: uptr, Size: int32, i: int32, addr: uptr, idx: int)
      requires ValidRange(Addr, Size) && Shadow.Length == kShadowSpan
      requires Progress(Shadow[..], s0, RegionBase(RegionOf(Addr)), Addr, Size, i, addr, idx)
      requires Size <= i + 8 && AppToShadow(addr) == kShadowOffs + idx
      modifies Shadow
      ensures Accessed(Shadow[..], s0, Addr, Size)
    {
      if i < Size {
        CheckAfterLoop(Addr, Size, addr, idx);
        var Mask := ComputeTailMask(Sub32(Size, i));
        ghost var u := Shadow[..];
        Shadow[idx] := Shadow[idx] | Mask;
        TailStep(Shadow[..], u, s0, RegionBase(RegionOf(Addr)), Addr, Size, i, addr, idx, Mask);
      } else {
        PastTheEnd(Shadow[..], s0, Addr, Size, i, addr, idx);
      }
    }

    /** processMemAccess: an access of 1 << SizeLog bytes. */
    method ProcessMemAccess(PC: uptr, Addr: uptr, SizeLog: int32, IsWrite: bool) returns (Died: bool)
      requires 0 <= SizeLog <= 30 && ValidRange(Addr, Shl1(SizeLog)) && Shadow.Length == kShadowSpan
      modifies Shadow
      ensures Accessed(Shadow[..], old(Shadow[..]), Addr, Shl1(SizeLog))
      ensures Died <==> !HeadCheckAsWritten(Addr)
    {
      Died := ProcessRangeAccess(PC, Addr, Shl1(SizeLog) as int32, IsWrite);
    }

    /** processUnalignedAccess: the same as a range access. */
    method ProcessUnalignedAccess(PC: uptr, Addr: uptr, Size: int32, IsWrite: bool) returns (Died: bool)
      requires ValidRange(Addr, Size) && Shadow.Length == kShadowSpan
      modifies Shadow
      ensures Accessed(Shadow[..], old(Shadow[..]), Addr, Size)
      ensures Died <==> !HeadCheckAsWritten(Addr)
    {
      Died := ProcessRangeAccess(PC, Addr, Size, IsWrite);
    }

    /**
     * initializeShadow: map the shadow of each application region in
     * turn, dying at the first mapping mmap does not place where asked.
     * The sanity CHECKs after each mapping all hold (CheckShadowMapping).
     */
    method InitializeShadow(Mmap: (uptr, uptr) -> uptr) returns (Died: bool)
      modifies this
      ensures CfsanIsInitialized == old(CfsanIsInitialized)
      ensures Died <==> MappedCount(Mmap, 0) < 4
      ensures Mapped == old(Mapped) + ShadowMappings(MappedCount(Mmap, 0))
    {
      var i := 0;
      Died := false;
      while GetAppRegion(i).Some?
        invariant 0 <= i <= 4 && MappedCount(Mmap, 0) == MappedCount(Mmap, i)
        invariant Mapped == old(Mapped) + ShadowMappings(i)
        invariant CfsanIsInitialized == old(CfsanIsInitialized) && !Died
        decreases 4 - i
      {
        var (AppStart, AppEnd) := GetAppRegion(i).value;
        var ShStart, ShEnd := ShadowBounds(i, AppStart, AppEnd);
        var Map := Mmap(ShStart, ShEnd - ShStart);
        if Map != ShStart {
          MappedCountStop(Mmap, i);
          Died := true;
          return;
        }
        MappedCountStep(Mmap, i);
        AppendMapping(old(Mapped), i);
        Mapped := Mapped + [(ShStart, ShEnd - ShStart)];
        Died := CheckShadowMapping(i, AppStart, AppEnd);
        i := i + 1;
      }
    }

    /**
     * initializeLibrary: only the first call does anything; it sets the
     * flag and maps the shadow.  Flags and interceptors are not modelled.
     */
    method InitializeLibrary(Mmap: (uptr, uptr) -> uptr) returns (Died: bool)
      modifies this
      ensures CfsanIsInitialized
      ensures old(CfsanIsInitialized) ==> !Died && Mapped == old(Mapped)
      ensures !old(CfsanIsInitialized) ==> (Died <==> MappedCount(Mmap, 0) < 4)
      ensures !old(CfsanIsInitialized) ==> Mapped == old(Mapped) + ShadowMappings(MappedCount(Mmap, 0))
    {
      if CfsanIsInitialized {
        return false;
      }
      CfsanIsInitialized := true;
      Died := InitializeShadow(Mmap);
    }
  }
}
