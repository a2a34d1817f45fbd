/**
 * cfsan's mmap interceptor passes `isAppMem` of its own address mapper to
 * `fix_mmap_addr`.  Because only the first and last byte of the requested
 * mapping are looked at, a hint is accepted exactly when those two bytes are
 * application memory: that keeps the whole mapping inside application
 * memory when both ends lie in the same region, but not when the range
 * spans the gap between two regions or wraps past the top of the address
 * space.
 */
module CfsanInterceptors {
  import opened Common
  import opened CfsanShadow
  import opened Interceptors

  /** A non-null hint whose two ends lie in one region keeps every byte of the mapping in that region. */
  lemma AcceptedHintInOneRegion(Addr: uptr, Sz: uptr, Flags: int32, b: int)
    requires Addr != 0 && 0 < Sz && Addr + Sz <= WORD
    requires FixedHint(IsAppMem, Addr, Sz, Flags) == Some(Addr)
    requires RegionOf(Addr) == RegionOf(Addr + Sz - 1)
    requires Addr <= b < Addr + Sz
    ensures 0 <= b < WORD && IsAppMem(b) && RegionOf(b) == RegionOf(Addr)
  {
    var i := RegionOf(Addr);
    assert InRegion(i, Addr) && InRegion(i, Addr + Sz - 1);
    assert InRegion(i, b);
  }

  /**
   * A hint from the last byte of region 0 to the first byte of region 1 is
   * accepted although the bytes between, kApp1End first, are not
   * application memory.
   */
  lemma HintAcrossGapAccepted(Flags: int32)
    ensures var Addr := kApp1End - 1; var Sz := kApp2Start - kApp1End + 2;
            && FixedHint(IsAppMem, Addr, Sz, Flags) == Some(Addr)
            && Addr < kApp1End < Addr + Sz && !IsAppMem(kApp1End)
  {
    var Addr := kApp1End - 1;
    var Sz := kApp2Start - kApp1End + 2;
    assert Wrap(Addr + Sz - 1) == kApp2Start;
    assert EndpointsInApp(IsAppMem, Addr, Sz);
  }

  /**
   * A hint at the start of region 3 whose length reaches one byte past the
   * top of the address space is accepted: its last byte wraps to address 0,
   * which region 0 holds.
   */
  lemma HintWrappingAroundAccepted(Flags: int32)
    ensures var Sz := WORD - kApp4Start + 1;
            && FixedHint(IsAppMem, kApp4Start, Sz, Flags) == Some(kApp4Start)
            && kApp4Start + Sz > WORD && !IsAppMem(kApp4End)
  {
    var Sz := WORD - kApp4Start + 1;
    assert Wrap(kApp4Start + Sz - 1) == 0;
    assert EndpointsInApp(IsAppMem, kApp4Start, Sz);
  }
}
