/**
 * What cfsan's shadow memory means: one bit per application byte, set once
 * the byte has been touched by any access.
 *
 * The shadow window [kShadowOffs, kShadowOffs + kShadowSpan) is a sequence
 * of bytes; index k stands for shadow address kShadowOffs + k.  For an
 * access inside region r, index k is the shadow byte of the eight
 * application bytes starting at GroupStart(RegionBase(r), k), and bit j of
 * it belongs to byte GroupStart(RegionBase(r), k) + j.
 *
 * Accessed is the specification of processRangeAccess: it says, bit by
 * bit, which shadow bits an access sets and that no other bit changes. 
 */
module CfsanCoverage {
  import opened Common
  import opened CfsanShadow

  // ---------------------------------------------------------------------
  // Bits of a shadow byte

  /** 1 << j, the bit of offset j in a shadow byte. */
  function BitMask(j: int): bv8
    requires 0 <= j < 8
  {
    match j
    case 0 => 0x01 case 1 => 0x02 case 2 => 0x04 case 3 => 0x08
    case 4 => 0x10 case 5 => 0x20 case 6 => 0x40 case _ => 0x80
  }

  /** Bit j of a shadow byte: the byte at offset j of its group has been touched. */
  predicate Bit(x: bv8, j: int)
    requires 0 <= j < 8
  {
    x & BitMask(j) != 0
  }

  /** A byte is determined by its eight bits. */
  lemma BitsDetermineByte(x: bv8, y: bv8)
    requires forall j | 0 <= j < 8 :: Bit(x, j) == Bit(y, j)
    ensures x == y
  {
    assert Bit(x, 0) == Bit(y, 0) && Bit(x, 1) == Bit(y, 1);
    assert Bit(x, 2) == Bit(y, 2) && Bit(x, 3) == Bit(y, 3);
    assert Bit(x, 4) == Bit(y, 4) && Bit(x, 5) == Bit(y, 5);
    assert Bit(x, 6) == Bit(y, 6) && Bit(x, 7) == Bit(y, 7);
  }

  /** `|=` sets a bit exactly when either operand has it. */
  lemma BitOfOr(x: bv8, y: bv8, j: int)
    requires 0 <= j < 8
    ensures Bit(x | y, j) <==> Bit(x, j) || Bit(y, j)
  {
  }

  // ---------------------------------------------------------------------
  // The masks processRangeAccess computes

  /**
   * The head mask, as the source computes it for a range starting Mod
   * bytes into a group: bits Mod .. min(Mod + Size, 8) - 1.  The test
   * `Mod + Size >= 8` is written `Size >= 8 - Mod`, the form that cannot
   * overflow a C `int` (see Cfsan.GuardsOverflowAsWritten).
   */
  function HeadMask(Mod: int, Size: int): (m: bv8)
    requires 0 < Mod < kShadowRatio && 0 <= Size
    ensures forall j | 0 <= j < 8 :: Bit(m, j) <==> Mod <= j < Mod + Size
  {
    if Size >= kShadowRatio - Mod then 0xff << Mod else ((1 << Size) - 1) << Mod
  }

  /** The tail mask `(1 << n) - 1`, as the source computes it for the last n bytes of a range (1 to 8 of them): the low n bits. */
  function TailMask(n: int): (m: bv8)
    requires 0 < n <= kShadowRatio
    ensures forall j | 0 <= j < 8 :: Bit(m, j) <==> j < n
  {
    (1 << n) - 1
  }

  /** An all-ones shadow byte covers the whole group. */
  lemma AllOnesBits(j: int)
    requires 0 <= j < 8
    ensures Bit(0xff, j)
  {
  }

  // ---------------------------------------------------------------------
  // Groups of application bytes

  /**
   * The first application byte of the shadow byte at window index k, for a
   * region whose addresses lose Base to the mask (Base = RegionBase(r)).
   */
  function GroupStart(Base: int, k: int): int
  {
    kShadowRatio * k + Base
  }

  /** The window index of the shadow byte of an application byte. */
  function ShadowIndex(a: uptr): (k: int)
    ensures 0 <= k < kShadowSpan
  {
    AppToShadow(a) - kShadowOffs
  }

  /** An application byte of region r is bit a % 8 of the shadow byte at ShadowIndex(a). */
  lemma ByteInItsGroup(r: int, a: uptr)
    requires InRegion(r, a)
    ensures GroupStart(RegionBase(r), ShadowIndex(a)) + a % kShadowRatio == a
  {
    AppToShadowInRegion(r, a);
    var x := a - RegionBase(r);
    RatioDecomposition(x, x / kShadowRatio, x % kShadowRatio);
    RatioDecomposition(a, x / kShadowRatio + RegionBase(r) / kShadowRatio, x % kShadowRatio);
  }

  /** Addr .. Addr+Size-1 lies inside the region of Addr: what the interceptors and entry points pass. */
  predicate ValidRange(Addr: uptr, Size: int)
  {
    0 <= Size && IsAppMem(Addr) && Addr + Size <= RegionEnd(RegionOf(Addr))
  }

  /** The region of Addr also holds every byte after Addr up to the end of a valid range. */
  lemma SameRegion(Addr: uptr, Size: int, b: int)
    requires ValidRange(Addr, Size) && Addr <= b < Addr + Size
    ensures 0 <= b < WORD && IsAppMem(b) && RegionOf(b) == RegionOf(Addr)
  {
    assert InRegion(RegionOf(Addr), b);
  }

  // ---------------------------------------------------------------------
  // Setting the bits of a range of bytes

  /**
   * t is the shadow window s after the bits of the application bytes
   * [lo, hi) have been set, for a region whose addresses lose Base to the
   * mask: bit j of byte k is set exactly when it was set in s or byte
   * GroupStart(Base, k) + j lies in [lo, hi).
   */
  predicate Marked(t: seq<bv8>, s: seq<bv8>, Base: int, lo: int, hi: int)
  {
    && |t| == |s|
    && forall k, j | 0 <= k < |s| && 0 <= j < 8 ::
         Bit(t[k], j) <==> Bit(s[k], j) || lo <= GroupStart(Base, k) + j < hi
  }

  /** Two windows whose bytes agree bit by bit are equal. */
  lemma SameBitsSameWindow(t: seq<bv8>, u: seq<bv8>)
    requires |t| == |u|
    requires forall k, j | 0 <= k < |t| && 0 <= j < 8 :: Bit(t[k], j) == Bit(u[k], j)
    ensures t == u
  {
    forall k | 0 <= k < |t|
      ensures t[k] == u[k]
    {
      BitsDetermineByte(t[k], u[k]);
    }
  }

  /** Marking describes at most one window. */
  lemma MarkedUnique(t: seq<bv8>, u: seq<bv8>, s: seq<bv8>, Base: int, lo: int, hi: int)
    requires Marked(t, s, Base, lo, hi) && Marked(u, s, Base, lo, hi)
    ensures t == u
  {
    SameBitsSameWindow(t, u);
  }

  /** Shadow bytes whose group lies outside [lo, hi) keep their old value. */
  lemma MarkFrame(t: seq<bv8>, s: seq<bv8>, Base: int, lo: int, hi: int, k: int)
    requires Marked(t, s, Base, lo, hi) && 0 <= k < |s|
    requires GroupStart(Base, k) + kShadowRatio <= lo || hi <= GroupStart(Base, k)
    ensures t[k] == s[k]
  {
    BitsDetermineByte(t[k], s[k]);
  }

  /** Marking never clears a bit: coverage only grows. */
  lemma MarkIsMonotone(t: seq<bv8>, s: seq<bv8>, Base: int, lo: int, hi: int, k: int, j: int)
    requires Marked(t, s, Base, lo, hi) && 0 <= k < |s| && 0 <= j < 8 && Bit(s[k], j)
    ensures Bit(t[k], j)
  {
  }

  /** Marking the same range twice leaves the same shadow as marking it once. */
  lemma MarkIdempotent(t1: seq<bv8>, t2: seq<bv8>, s: seq<bv8>, Base: int, lo: int, hi: int)
    requires Marked(t1, s, Base, lo, hi) && Marked(t2, t1, Base, lo, hi)
    ensures t2 == t1
  {
    SameBitsSameWindow(t2, t1);
  }

  /** Marking [lo, mid) and then [mid, hi) is marking [lo, hi). */
  lemma MarkedSplit(t2: seq<bv8>, t1: seq<bv8>, s: seq<bv8>, Base: int, lo: int, mid: int, hi: int)
    requires lo <= mid <= hi
    requires Marked(t1, s, Base, lo, mid) && Marked(t2, t1, Base, mid, hi)
    ensures Marked(t2, s, Base, lo, hi)
  {
  }

  /** Coverage does not depend on the order of two accesses. */
  lemma MarkCommutes(t2: seq<bv8>, t1: seq<bv8>, u2: seq<bv8>, u1: seq<bv8>, s: seq<bv8>,
                     Base: int, lo1: int, hi1: int, lo2: int, hi2: int)
    requires Marked(t1, s, Base, lo1, hi1) && Marked(t2, t1, Base, lo2, hi2)
    requires Marked(u1, s, Base, lo2, hi2) && Marked(u2, u1, Base, lo1, hi1)
    ensures t2 == u2
  {
    SameBitsSameWindow(t2, u2);
  }

  /**
   * OR-ing into the shadow byte of group k a mask whose bits are exactly
   * the bytes of [mid, hi), all inside that group, extends a marking of
   * [lo, mid) to [lo, hi).
   */
  lemma MarkExtend(t: seq<bv8>, s: seq<bv8>, Base: int, lo: int, mid: int, hi: int, k: int, m: bv8)
    requires Marked(t, s, Base, lo, mid) && lo <= mid <= hi && 0 <= k < |t|
    requires GroupStart(Base, k) <= mid && hi <= GroupStart(Base, k) + kShadowRatio
    requires forall j | 0 <= j < 8 :: Bit(m, j) <==> mid <= GroupStart(Base, k) + j < hi
    ensures Marked(t[k := t[k] | m], s, Base, lo, hi)
  {
    var u := t[k := t[k] | m];
    forall k', j | 0 <= k' < |s| && 0 <= j < 8
      ensures Bit(u[k'], j) <==> Bit(s[k'], j) || lo <= GroupStart(Base, k') + j < hi
    {
      if k' == k {
        BitOfOr(t[k], m, j);
      } else {
        assert u[k'] == t[k'];
        assert !(mid <= GroupStart(Base, k') + j < hi);
      }
    }
  }

  /** Setting the shadow byte of the group right after a marked range to all ones marks that group too. */
  lemma MarkFullGroup(t: seq<bv8>, s: seq<bv8>, Base: int, lo: int, k: int)
    requires 0 <= k < |t| && lo <= GroupStart(Base, k) && Marked(t, s, Base, lo, GroupStart(Base, k))
    ensures Marked(t[k := 0xff], s, Base, lo, GroupStart(Base, k) + kShadowRatio)
  {
    var g := GroupStart(Base, k);
    forall j | 0 <= j < 8
      ensures Bit(0xff, j) <==> g <= g + j < g + kShadowRatio
    {
      AllOnesBits(j);
    }
    MarkExtend(t, s, Base, lo, g, g + kShadowRatio, k, 0xff);
    assert t[k] | 0xff == 0xff;
  }

  // ---------------------------------------------------------------------
  // The specification of processRangeAccess

  /**
   * t is the shadow window s after an access of Size bytes at Addr: the
   * bits of [Addr, Addr + Size) are set, read through the mapping of the
   * region of Addr.
   */
  predicate Accessed(t: seq<bv8>, s: seq<bv8>, Addr: uptr, Size: int)
  {
    IsAppMem(Addr) && Marked(t, s, RegionBase(RegionOf(Addr)), Addr, Addr + Size)
  }

  /**
   * After an access, the bit of an application byte of the same region is
   * set exactly when it was set before or the byte is in [Addr, Addr + Size):
   * every touched byte is recorded and no other byte of the region is.
   */
  lemma AccessSetsExactlyTheRange(t: seq<bv8>, s: seq<bv8>, Addr: uptr, Size: int, b: uptr)
    requires |s| == kShadowSpan && Accessed(t, s, Addr, Size) && InRegion(RegionOf(Addr), b)
    ensures Bit(t[ShadowIndex(b)], b % 8) <==> Bit(s[ShadowIndex(b)], b % 8) || Addr <= b < Addr + Size
  {
    ByteInItsGroup(RegionOf(Addr), b);
  }

  /**
   * The shadow after an access is determined by the shadow before it, the
   * address and the size: the PC and the kind of access play no part.
   */
  lemma AccessDeterministic(t: seq<bv8>, u: seq<bv8>, s: seq<bv8>, Addr: uptr, Size: int)
    requires Accessed(t, s, Addr, Size) && Accessed(u, s, Addr, Size)
    ensures t == u
  {
    MarkedUnique(t, u, s, RegionBase(RegionOf(Addr)), Addr, Addr + Size);
  }

  /** The second piece of a split access reads through the mapping of the first piece's region. */
  lemma SecondPieceSameBase(t2: seq<bv8>, t1: seq<bv8>, Addr: uptr, S1: int, S2: int)
    requires 0 <= S1 && Addr + S1 < WORD && IsAppMem(Addr) && RegionOf(Addr + S1) == RegionOf(Addr)
    requires Accessed(t2, t1, Addr + S1, S2)
    ensures Marked(t2, t1, RegionBase(RegionOf(Addr)), Addr + S1, Addr + S1 + S2)
  {
  }

  /** An access of S1 bytes followed by one of S2 bytes leaves the shadow that an access of S1 + S2 bytes leaves. */
  lemma AccessSplit(t2: seq<bv8>, t1: seq<bv8>, s: seq<bv8>, Addr: uptr, S1: int, S2: int)
    requires ValidRange(Addr, S1 + S2) && 0 <= S1 && 0 < S2
    requires Accessed(t1, s, Addr, S1)
    requires Addr + S1 < WORD && Accessed(t2, t1, Addr + S1, S2)
    ensures Accessed(t2, s, Addr, S1 + S2)
  {
    SameRegion(Addr, S1 + S2, Addr + S1);
    SecondPieceSameBase(t2, t1, Addr, S1, S2);
    MarkedSplit(t2, t1, s, RegionBase(RegionOf(Addr)), Addr, Addr + S1, Addr + S1 + S2);
  }

  /**
   * A range that starts and ends inside one group changes exactly one
   * shadow byte, OR-ing ((1 << Size) - 1) << Mod into it.
   */
  lemma AccessWithinOneGroup(t: seq<bv8>, s: seq<bv8>, Addr: uptr, Size: int, k: int)
    requires |s| == kShadowSpan && ValidRange(Addr, Size) && Accessed(t, s, Addr, Size)
    requires Addr % 8 != 0 && Addr % 8 + Size < 8 && 0 <= k < |s|
    ensures t[k] == if k == ShadowIndex(Addr) then s[k] | (((1 << Size) - 1) << (Addr % 8)) else s[k]
  {
    var r := RegionOf(Addr);
    var Base := RegionBase(r);
    var g := GroupStart(Base, k);
    ByteInItsGroup(r, Addr);
    if k == ShadowIndex(Addr) {
      var m := HeadMask(Addr % 8, Size);
      forall j | 0 <= j < 8
        ensures Bit(t[k], j) == Bit(s[k] | m, j)
      {
        BitOfOr(s[k], m, j);
      }
      BitsDetermineByte(t[k], s[k] | m);
    } else {
      MarkFrame(t, s, Base, Addr, Addr + Size, k);
    }
  }
}
