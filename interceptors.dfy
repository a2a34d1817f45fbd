/**
 * The interceptors both tools define with the same code: the ranges that
 * strcpy, strncpy, fread, fwrite and puts forward to `processRangeAccess`
 * before calling the real libc function, and the mmap hint check
 * `fix_mmap_addr`.  A C string is modelled by the characters stored from
 * its address on, up to and past its terminating NUL; `isAppMem` is a
 * parameter because each tool has its own.
 */
module Interceptors {
  import opened Common

  const MAP_FIXED: bv32 := 0x10
  const EINVAL: int32 := 22
  /** `(void *)-1`, what mmap returns on failure. */
  const MAP_FAILED: uptr := 0xffff_ffff_ffff_ffff

  /** The characters stored from a string's address on hold its terminator and fit the address space. */
  predicate IsCString(s: seq<char>)
  {
    '\0' in s && |s| < WORD
  }

  /** `internal_strlen`: the index of the first NUL. */
  function StrLen(s: seq<char>): (r: nat)
    requires '\0' in s
    ensures r < |s| && s[r] == '\0'
    ensures forall i | 0 <= i < r :: s[i] != '\0'
  {
    if s[0] == '\0' then 0 else 1 + StrLen(s[1..])
  }

  /** `internal_strnlen(s, n)`: the index of the first NUL, or n when none of the first n characters is one. */
  function StrNLen(s: seq<char>, n: nat): (r: nat)
    requires n <= |s| || '\0' in s
    ensures r <= n && r <= |s| && forall i | 0 <= i < r :: s[i] != '\0'
    ensures r < n ==> r < |s| && s[r] == '\0'
  {
    if n == 0 || s[0] == '\0' then 0 else 1 + StrNLen(s[1..], n - 1)
  }

  /** strcpy: a write of the source's length plus its NUL at dst, then a read of as many bytes at src. */
  function Strcpy(PC: uptr, dst: uptr, src: uptr, s: seq<char>): (r: seq<RangeAccess>)
    requires IsCString(s)
    ensures |r| == 2 && r[0] == RangeAccess(PC, dst, r[1].Size, true) && r[1].Addr == src && !r[1].IsWrite
    ensures 0 < r[1].Size <= |s| && s[r[1].Size - 1] == '\0'
    ensures forall i | 0 <= i < r[1].Size - 1 :: s[i] != '\0'
  {
    var srclen := StrLen(s);
    [RangeAccess(PC, dst, srclen + 1, true), RangeAccess(PC, src, srclen + 1, false)]
  }

  /**
   * strncpy: a write of all n bytes at dst (strncpy pads with NULs), then a
   * read at src of the string and its NUL, cut at n bytes.
   */
  function Strncpy(PC: uptr, dst: uptr, src: uptr, s: seq<char>, n: uptr): (r: seq<RangeAccess>)
    requires (n <= |s| || '\0' in s) && |s| < WORD
    ensures |r| == 2 && r[0] == RangeAccess(PC, dst, n, true) && r[1].Addr == src && !r[1].IsWrite
    ensures 0 <= r[1].Size <= n && r[1].Size <= |s| && (r[1].Size == 0 <==> n == 0)
    ensures forall i | 0 <= i < r[1].Size - 1 :: s[i] != '\0'
    ensures r[1].Size < n ==> s[r[1].Size - 1] == '\0'
  {
    var srclen := StrNLen(s, n);
    [RangeAccess(PC, dst, n, true), RangeAccess(PC, src, if srclen + 1 > n then n else srclen + 1, false)]
  }

  /** fread: a write of size * nmemb bytes, a product that wraps like any `uptr` product. */
  function Fread(PC: uptr, ptr: uptr, size: uptr, nmemb: uptr): (r: seq<RangeAccess>)
    ensures |r| == 1 && r[0].Addr == ptr && r[0].IsWrite
    ensures size * nmemb < WORD ==> r[0].Size == size * nmemb
  {
    [RangeAccess(PC, ptr, Wrap(size * nmemb), true)]
  }

  /** fwrite: a read of size * nmemb bytes, wrapping as for fread. */
  function Fwrite(PC: uptr, p: uptr, size: uptr, nmemb: uptr): (r: seq<RangeAccess>)
    ensures |r| == 1 && r[0].Addr == p && !r[0].IsWrite
    ensures size * nmemb < WORD ==> r[0].Size == size * nmemb
  {
    [RangeAccess(PC, p, Wrap(size * nmemb), false)]
  }

  /** puts: a read of the string's characters, without its terminating NUL. */
  function Puts(PC: uptr, p: uptr, s: seq<char>): (r: seq<RangeAccess>)
    requires IsCString(s)
    ensures |r| == 1 && r[0].Addr == p && !r[0].IsWrite
    ensures 0 <= r[0].Size < |s| && s[r[0].Size] == '\0' && forall i | 0 <= i < r[0].Size :: s[i] != '\0'
  {
    [RangeAccess(PC, p, StrLen(s), false)]
  }

  /** The MAP_FIXED bit of a C `int` flags word: bit 4 of its two's-complement form. */
  predicate IsFixed(Flags: int32): (b: bool)
    ensures b <==> (Flags as int % 0x1_0000_0000) / 16 % 2 == 1
  {
    ((Flags as int % 0x1_0000_0000) as bv32) & MAP_FIXED != 0
  }

  /** Both endpoints of the requested mapping are application memory; the bytes between are not looked at. */
  predicate EndpointsInApp(InApp: uptr -> bool, Addr: uptr, Sz: uptr)
  {
    InApp(Addr) && InApp(Wrap(Addr + Sz - 1))
  }

  /**
   * What `fix_mmap_addr` makes of an mmap hint: None when mmap must fail
   * with EINVAL, otherwise the hint to pass on.
   */
  function FixedHint(InApp: uptr -> bool, Addr: uptr, Sz: uptr, Flags: int32): (r: Option<uptr>)
    ensures r == None <==> Addr != 0 && !EndpointsInApp(InApp, Addr, Sz) && IsFixed(Flags)
    ensures Addr == 0 || EndpointsInApp(InApp, Addr, Sz) ==> r == Some(Addr)
    ensures Addr != 0 && !EndpointsInApp(InApp, Addr, Sz) && !IsFixed(Flags) ==> r == Some(0)
    ensures r.Some? && r.value != 0 ==> EndpointsInApp(InApp, r.value, Sz)
  {
    if Addr == 0 || EndpointsInApp(InApp, Addr, Sz) then Some(Addr)
    else if IsFixed(Flags) then None
    else Some(0)
  }

  /** A hint that fix_mmap_addr lets through is let through unchanged a second time. */
  lemma FixedHintIdempotent(InApp: uptr -> bool, Addr: uptr, Sz: uptr, Flags: int32)
    requires FixedHint(InApp, Addr, Sz, Flags).Some?
    ensures var a := FixedHint(InApp, Addr, Sz, Flags).value; FixedHint(InApp, a, Sz, Flags) == Some(a)
  {
  }

  /** The process's `errno`, the one global the interceptors write. */
  class Libc {
    var Errno: int32

    constructor()
      ensures Errno == 0
    {
      Errno := 0;
    }
  }

  /**
   * `fix_mmap_addr(&addr, sz, flags)`: Ok is its result and NewAddr the value
   * it leaves in `*addr`; on failure errno is EINVAL.
   */
  method FixMmapAddr(libc: Libc, InApp: uptr -> bool, Addr: uptr, Sz: uptr, Flags: int32)
    returns (Ok: bool, NewAddr: uptr)
    modifies libc
    ensures Ok <==> FixedHint(InApp, Addr, Sz, Flags).Some?
    ensures Ok ==> NewAddr == FixedHint(InApp, Addr, Sz, Flags).value && libc.Errno == old(libc.Errno)
    ensures !Ok ==> NewAddr == Addr && libc.Errno == EINVAL
  {
    NewAddr := Addr;
    if NewAddr != 0 {
      if !InApp(NewAddr) || !InApp(Wrap(NewAddr + Sz - 1)) {
        if ((Flags as int % 0x1_0000_0000) as bv32) & MAP_FIXED != 0 {
          libc.Errno := EINVAL;
          return false, NewAddr;
        } else {
          NewAddr := 0;
        }
      }
    }
    return true, NewAddr;
  }

  /**
   * The mmap (and mmap64) interceptor: fails with MAP_FAILED without calling
   * the real mmap when fix_mmap_addr refuses, otherwise calls it with the
   * fixed hint.  RealMmap stands for the libc call, reduced to its hint and
   * length.
   */
  method Mmap(libc: Libc, InApp: uptr -> bool, RealMmap: (uptr, uptr) -> uptr, Addr: uptr, Sz: uptr, Flags: int32)
    returns (r: uptr)
    modifies libc
    ensures FixedHint(InApp, Addr, Sz, Flags) == None ==> r == MAP_FAILED && libc.Errno == EINVAL
    ensures FixedHint(InApp, Addr, Sz, Flags).Some? ==>
              r == RealMmap(FixedHint(InApp, Addr, Sz, Flags).value, Sz) && libc.Errno == old(libc.Errno)
  {
    var Ok, NewAddr := FixMmapAddr(libc, InApp, Addr, Sz, Flags);
    if !Ok {
      return MAP_FAILED;
    }
    r := RealMmap(NewAddr, Sz);
  }
}
