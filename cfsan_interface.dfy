/**
 * The cfsan entry points (`__cfsan_read1` ... `__cfsan_unaligned_write16`):
 * each forwards its ranges to `processMemAccess` or `processUnalignedAccess`.
 * `Trace` says that a list of shadow snapshots records those ranges one after
 * the other; the lemmas say that every entry point, whether it issues one
 * range or two, leaves the shadow of one K-byte access behind, so that reads
 * and writes, and aligned and unaligned forms, of the same width agree.
 */
module CfsanInterface {
  import opened Common
  import opened CfsanShadow
  import opened CfsanCoverage
  import opened EntryPoints
  import Cfsan

  /** states[i + 1] is the shadow after the i-th range of accs has been recorded on states[i]. */
  ghost predicate Trace(states: seq<seq<bv8>>, accs: seq<RangeAccess>)
  {
    && |states| == |accs| + 1
    && forall i | 0 <= i < |accs| :: Accessed(states[i + 1], states[i], accs[i].Addr, accs[i].Size)
  }

  /** Whatever ranges an entry point issues, together they record one access of its K bytes. */
  lemma AccessesCover(e: EntryPoint, PC: uptr, Addr: uptr, states: seq<seq<bv8>>)
    requires e.Declared() && ValidRange(Addr, e.K)
    requires Trace(states, Accesses(e, PC, Addr))
    ensures Accessed(states[|states| - 1], states[0], Addr, e.K)
  {
    var r := Accesses(e, PC, Addr);
    if |r| == 2 {
      assert Accessed(states[1], states[0], Addr, 8) && Accessed(states[2], states[1], Addr + 8, 8);
      AccessSplit(states[2], states[1], states[0], Addr, 8, 8);
    }
  }

  /**
   * Two entry points of the same width at the same address leave the same
   * shadow: the shadow does not tell reads from writes, the calling PC is
   * not recorded, and `read16` marks what `unaligned_read16` marks.
   */
  lemma SameWidthSameShadow(e1: EntryPoint, e2: EntryPoint, PC1: uptr, PC2: uptr, Addr: uptr,
                            s1: seq<seq<bv8>>, s2: seq<seq<bv8>>)
    requires e1.Declared() && e2.Declared() && e1.K == e2.K && ValidRange(Addr, e1.K)
    requires Trace(s1, Accesses(e1, PC1, Addr)) && Trace(s2, Accesses(e2, PC2, Addr))
    requires s1[0] == s2[0]
    ensures s1[|s1| - 1] == s2[|s2| - 1]
  {
    AccessesCover(e1, PC1, Addr, s1);
    AccessesCover(e2, PC2, Addr, s2);
    AccessDeterministic(s1[|s1| - 1], s2[|s2| - 1], s1[0], Addr, e1.K);
  }

  /** `__cfsan_init`: the once-only library initialization. */
  method Init(rt: Cfsan.Runtime, Mmap: (uptr, uptr) -> uptr) returns (Died: bool)
    modifies rt
    ensures rt.CfsanIsInitialized
    ensures old(rt.CfsanIsInitialized) ==> !Died && rt.Mapped == old(rt.Mapped)
    ensures !old(rt.CfsanIsInitialized) ==> (Died <==> Cfsan.MappedCount(Mmap, 0) < 4)
    ensures !old(rt.CfsanIsInitialized) ==> rt.Mapped == old(rt.Mapped) + Cfsan.ShadowMappings(Cfsan.MappedCount(Mmap, 0))
  {
    Died := rt.InitializeLibrary(Mmap);
  }

  /**
   * The entry point e called from PC on Addr.  It dies when the head CHECK of
   * one of its ranges fails (the 16-byte forms stop after the first range
   * then); otherwise the shadow records one access of K bytes at Addr.
   */
  method Call(rt: Cfsan.Runtime, e: EntryPoint, PC: uptr, Addr: uptr) returns (Died: bool)
    requires e.Declared() && ValidRange(Addr, e.K) && rt.Shadow.Length == kShadowSpan
    modifies rt.Shadow
    ensures !Died ==> Accessed(rt.Shadow[..], old(rt.Shadow[..]), Addr, e.K)
    ensures Died <==> !Cfsan.HeadCheckAsWritten(Addr)
                      || ((e.Read? || e.Write?) && e.K == 16 && !Cfsan.HeadCheckAsWritten(Addr + 8))
    ensures kShadowRatio <= e.K ==> !Died
  {
    if kShadowRatio <= e.K {
      Cfsan.HeadCheckHoldsForWideRanges(Addr, e.K);
      if e.K == 16 {
        SameRegion(Addr, 16, Addr + 8);
        Cfsan.HeadCheckHoldsForWideRanges(Addr + 8, 8);
      }
    }
    var W := e.IsWrite();
    if e.UnalignedRead? || e.UnalignedWrite? {
      Died := rt.ProcessUnalignedAccess(PC, Addr, e.K as int32, W);
    } else if e.K == 16 {
      ghost var s0 := rt.Shadow[..];
      Died := rt.ProcessMemAccess(PC, Addr, kSizeLog8, W);
      if Died { return; }
      ghost var s1 := rt.Shadow[..];
      SameRegion(Addr, 16, Addr + 8);
      Died := rt.ProcessMemAccess(PC, Wrap(Addr + 8), kSizeLog8, W);
      AccessSplit(rt.Shadow[..], s1, s0, Addr, 8, 8);
    } else {
      Died := rt.ProcessMemAccess(PC, Addr, SizeLogOf(e.K), W);
    }
  }
}
