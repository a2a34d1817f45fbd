/**
 * The instrumentation entry points shared by both tools: the compiler
 * inserts a call to `__<tool>_readK`, `__<tool>_writeK`,
 * `__<tool>_unaligned_readK` or `__<tool>_unaligned_writeK` before each
 * load or store, and each of them hands one or two ranges to the tool's
 * `processRangeAccess`.  This module lists those ranges; the two interface
 * modules say what the ranges do to each tool's state.
 */
module EntryPoints {
  import opened Common

  const kSizeLog1: int32 := 0
  const kSizeLog2: int32 := 1
  const kSizeLog4: int32 := 2
  const kSizeLog8: int32 := 3

  /** One entry point; K is the width in the entry point's name. */
  datatype EntryPoint =
    | Read(K: int)
    | Write(K: int)
    | UnalignedRead(K: int)
    | UnalignedWrite(K: int)
  {
    predicate IsWrite() { Write? || UnalignedWrite? }

    /** The entry points the runtime defines: aligned 1 to 16 bytes, unaligned 2 to 16. */
    predicate Declared()
    {
      if Read? || Write? then K in {1, 2, 4, 8, 16} else K in {2, 4, 8, 16}
    }
  }

  /** The size log an aligned entry point passes for a K-byte access of at most eight bytes. */
  function SizeLogOf(K: int): int32
  {
    if K == 1 then kSizeLog1 else if K == 2 then kSizeLog2 else if K == 4 then kSizeLog4 else kSizeLog8
  }

  /** The bytes a list of ranges covers in total. */
  function Total(r: seq<RangeAccess>): int
  {
    if r == [] then 0 else r[0].Size + Total(r[1..])
  }

  /**
   * The ranges an entry point issues, in order: an aligned access of K <= 8
   * bytes is one range of `1 << SizeLog` bytes; an aligned 16-byte access is
   * two 8-byte ranges, the second at `Addr + 8` (uptr arithmetic); an
   * unaligned access is one range of K bytes.
   */
  function Accesses(e: EntryPoint, PC: uptr, Addr: uptr): (r: seq<RangeAccess>)
    requires e.Declared()
    ensures 1 <= |r| <= 2 && r[0].Addr == Addr && Total(r) == e.K
    ensures forall i | 0 <= i < |r| :: r[i].PC == PC && r[i].IsWrite == e.IsWrite() && 0 < r[i].Size
    ensures |r| == 2 ==> r[1].Addr == Wrap(Addr + r[0].Size)
  {
    var W := e.IsWrite();
    if e.UnalignedRead? || e.UnalignedWrite? then
      [RangeAccess(PC, Addr, e.K, W)]
    else if e.K == 16 then
      var r := [RangeAccess(PC, Addr, Shl1(kSizeLog8), W), RangeAccess(PC, Wrap(Addr + 8), Shl1(kSizeLog8), W)];
      assert Total(r[1..]) == 8 by { assert r[1..][1..] == []; }
      r
    else
      [RangeAccess(PC, Addr, Shl1(SizeLogOf(e.K)), W)]
  }
}
