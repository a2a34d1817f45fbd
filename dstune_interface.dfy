/**
 * The dstune entry points (`__dstune_read1` ... `__dstune_unaligned_write16`):
 * the same forwarding as cfsan's, into the write-after-write detector.
 * `Run` folds a list of ranges through `Processed`; the lemmas say that every
 * entry point, whether it issues one range or two, is one K-byte access, and
 * that the read entry points never touch the table of write-after-write
 * instances.
 */
module DstuneInterface {
  import opened Common
  import opened EntryPoints
  import opened Dstune

  /** The detector's state after the ranges of accs, in order; no entry of the table is removed. */
  function Run(st: State, accs: seq<RangeAccess>): (r: State)
    ensures st.Table.Keys <= r.Table.Keys
    decreases |accs|
  {
    if accs == [] then st
    else
      var a := accs[0];
      ProcessedKeepsEntries(st, a.PC, a.Addr, Bytes(a.Size), a.IsWrite);
      Run(Processed(st, a.PC, a.Addr, Bytes(a.Size), a.IsWrite), accs[1..])
  }

  /** The number of bytes a range access of Size bytes processes: none for a negative Size. */
  function Bytes(Size: int): nat
  {
    if Size < 0 then 0 else Size
  }

  /** Two ranges run one after the other. */
  lemma RunTwo(st: State, a: RangeAccess, b: RangeAccess)
    ensures Run(st, [a, b]) == Processed(Processed(st, a.PC, a.Addr, Bytes(a.Size), a.IsWrite), b.PC, b.Addr, Bytes(b.Size), b.IsWrite)
  {
    var p := Processed(st, a.PC, a.Addr, Bytes(a.Size), a.IsWrite);
    assert [a, b][1..] == [b];
    assert Run(st, [a, b]) == Run(p, [b]);
    assert [b][1..] == [];
    assert Run(p, [b]) == Run(Processed(p, b.PC, b.Addr, Bytes(b.Size), b.IsWrite), []);
  }

  /** Whatever ranges an entry point issues, together they process its K bytes from Addr on. */
  lemma EntryIsOneRange(st: State, e: EntryPoint, PC: uptr, Addr: uptr)
    requires e.Declared()
    ensures Run(st, Accesses(e, PC, Addr)) == Processed(st, PC, Addr, e.K, e.IsWrite())
  {
    var r := Accesses(e, PC, Addr);
    if |r| == 2 {
      assert r == [r[0], r[1]];
      assert r[0].Size == 8 && r[1].Size == 8 && r[1].Addr == Wrap(Addr + 8);
      RunTwo(st, r[0], r[1]);
      ProcessedSplit(st, PC, Addr, 8, 8, e.IsWrite());
    } else {
      assert r[1..] == [];
    }
  }

  /** Entry points of the same width and kind at the same address have the same effect, aligned or unaligned, one range or two. */
  lemma SameWidthSameEffect(st: State, e1: EntryPoint, e2: EntryPoint, PC: uptr, Addr: uptr)
    requires e1.Declared() && e2.Declared() && e1.K == e2.K && e1.IsWrite() == e2.IsWrite()
    ensures Run(st, Accesses(e1, PC, Addr)) == Run(st, Accesses(e2, PC, Addr))
  {
    EntryIsOneRange(st, e1, PC, Addr);
    EntryIsOneRange(st, e2, PC, Addr);
  }

  /** A read entry point leaves the table of write-after-write instances as it was. */
  lemma ReadEntryKeepsTable(st: State, e: EntryPoint, PC: uptr, Addr: uptr)
    requires e.Declared() && !e.IsWrite()
    ensures Run(st, Accesses(e, PC, Addr)).Table == st.Table
  {
    EntryIsOneRange(st, e, PC, Addr);
    ReadsKeepTable(st, PC, Addr, e.K);
  }

  /** `__dstune_init`: the once-only library initialization. */
  method Init(rt: Runtime)
    modifies rt
    ensures rt.DstuneIsInitialized && rt.Shadow == old(rt.Shadow)
    ensures old(rt.DstuneIsInitialized) ==> rt.WAWHashMap == old(rt.WAWHashMap)
    ensures !old(rt.DstuneIsInitialized) ==> rt.WAWHashMap == map[]
  {
    rt.InitializeLibrary();
  }

  /** The entry point e called from PC on Addr: one access of K bytes. */
  method Call(rt: Runtime, e: EntryPoint, PC: uptr, Addr: uptr)
    requires e.Declared()
    modifies rt
    ensures rt.Snapshot() == Processed(old(rt.Snapshot()), PC, Addr, e.K, e.IsWrite())
    ensures rt.DstuneIsInitialized == old(rt.DstuneIsInitialized)
  {
    var W := e.IsWrite();
    if e.UnalignedRead? || e.UnalignedWrite? {
      rt.ProcessUnalignedAccess(PC, Addr, e.K as int32, W);
    } else if e.K == 16 {
      rt.ProcessMemAccess(PC, Addr, kSizeLog8, W);
      rt.ProcessMemAccess(PC, Wrap(Addr + 8), kSizeLog8, W);
      ProcessedSplit(old(rt.Snapshot()), PC, Addr, 8, 8, W);
    } else {
      rt.ProcessMemAccess(PC, Addr, SizeLogOf(e.K), W);
    }
  }
}
