# cfsan and dstune shadow-memory run-times in Dafny

This project models the run-time cores of two LLVM sanitizer-style tools that keep
out-of-band metadata (shadow memory) for every application byte:

- **cfsan** (CacheFragSanitizer) keeps one shadow bit per application byte. It maps
  the four x86-64 application regions into one shadow window (`appToShadow`: mask
  with `0x0fff'ffff'ffff`, add `0x1200'0000'0000 << 3`, shift right by 3). On every
  access, `processRangeAccess` sets the bits of the touched bytes in three phases:
  a masked head byte, whole 4-byte words and bytes of all ones, then a masked tail
  byte. `initializeShadow` maps the four shadow ranges and checks the mapping.
- **dstune** (DeadStoreTuner) keeps one `ShadowByte` per application byte. Its fields
  are a 2-bit mode (read, written once, written again), a flag asking for a first
  PC, and a 5-bit saturating counter. A write after a write is an event. When the
  counter is saturated, the event goes to a table keyed by address
  (`Count`, `FirstPC`, `SecondPC`).
- Both tools have instrumentation entry points (`__cfsan_read4`, `__dstune_write16`, ...).
  Each forwards one or two range accesses.
- Both tools also have libc interceptors. strcpy, strncpy, fread, fwrite and puts (and,
  for dstune, memset, memmove, memcpy, strlen and strrchr) forward computed ranges.
  mmap refuses or clears hints outside application memory (`fix_mmap_addr`).

Layout:

- `common.dfy` holds `uptr` with explicit wrap-around, `int32`, and the `RangeAccess`
  record of one `processRangeAccess` call.
- `cfsan_shadow.dfy` is the address mapper.
- `cfsan_coverage.dfy` specifies what an access does to the bitmap (`Accessed`).
- `cfsan.dfy` is the cfsan run-time. Its `Runtime` class holds the shadow window as
  an array, and its methods are proved against `Accessed`.
- `dstune.dfy` holds the dstune step functions and their lemmas, and the `Runtime`
  class whose methods are proved against them.
- `entry_points.dfy`, `cfsan_interface.dfy` and `dstune_interface.dfy` model the
  entry points.
- `interceptors.dfy`, `cfsan_interceptors.dfy` and `dstune_interceptors.dfy` model
  the interceptors.

Where the comments in the code and the code disagree, the model follows the code:

- **Shadow ranges.** The shadow ranges listed in the comment of
  `lib/cfsan/cfsan_shadow.h:38-53` are those of a 1:1 mapping. The code scales by 8,
  and `CfsanShadow.ShadowRanges` gives the real ranges.
- **vsyscall region.** That comment writes the vsyscall region with an inclusive end.
  The code (`isAppMem`, `getAppRegion`) treats it as half-open.
- **Aliasing.** The mapping is 8:1 and not injective. Regions 2 and 3 (counted from 0)
  share shadow after masking (`CfsanShadow.Region3And4Alias`).
- **The write-after-write count** is a u64. After n events it is n modulo 2^64.
- **FirstPC** is the PC of the first write that follows a read once an entry has asked
  for it. It is the writing PC, not a read PC.

## Model

| member | source | states |
|---|---|---|
| CfsanShadow.GetAppRegion | lib/cfsan/cfsan_shadow.h:77-99 | a region exists exactly for 0 <= i <= 3, and each is a non-empty half-open range |
| CfsanShadow.RegionsAscending | lib/cfsan/cfsan_shadow.h:57-65 | the four regions are in ascending order and disjoint |
| CfsanShadow.IsAppMem | lib/cfsan/cfsan_shadow.h:101-111 | application memory is exactly the union of the four half-open getAppRegion ranges |
| CfsanShadow.IsAppMemIffInRegion | lib/cfsan/cfsan_shadow.h:101-111 | isAppMem(m) holds iff m lies in one of the getAppRegion ranges |
| CfsanShadow.RegionOf | lib/cfsan/cfsan_shadow.h:101-111 | an address has a region index iff it is application memory, and then it lies in that region |
| CfsanShadow.RegionBoundaries | lib/cfsan/cfsan.cc:112-115 | start and end-1 of each region are application memory; start-1 and end are not |
| CfsanShadow.BelowFirstRegionWraps | lib/cfsan/cfsan.cc:113 | kApp1Start - 1 wraps to 0xffff_ffff_ffff_ffff, which is not application memory |
| CfsanShadow.AppToShadow | lib/cfsan/cfsan_shadow.h:113-119 | every shadow address lies in the window [0x1200'0000'0000, 0x1400'0000'0000) |
| CfsanShadow.MaskIsLowBits | lib/cfsan/cfsan_shadow.h:116 | `& kShadowMask` on a 64-bit word keeps its value modulo 2^44 |
| CfsanShadow.ShiftsAreScaling | lib/cfsan/cfsan_shadow.h:116-118 | `>> 3` divides by 8, and kShadowOffs << 3 does not overflow |
| CfsanShadow.RegionBaseIsMaskedStart | lib/cfsan/cfsan_shadow.h:116 | what the mask strips from each region is a multiple of 8 below its start |
| CfsanShadow.AppToShadowInRegion | lib/cfsan/cfsan_shadow.h:113-119 | inside region i, appToShadow(a) == (a - base(i)) / 8 + kShadowOffs |
| CfsanShadow.AlignedGroupSharesShadow | lib/cfsan/cfsan_shadow.h:113-119 | the eight bytes of an aligned group share one shadow byte |
| CfsanShadow.AppToShadowNextGroup | lib/cfsan/cfsan_shadow.h:113-119 | within a region, appToShadow(a + 8) == appToShadow(a) + 1 |
| CfsanShadow.Region3And4Alias | lib/cfsan/cfsan_shadow.h:57-69 | 0x7fff_ff60_0000 and the vsyscall page 0xffff_ffff_ff60_0000 share a shadow byte |
| CfsanShadow.ShadowOfShadow | lib/cfsan/cfsan_shadow.h:46-53 | the shadow of a shadow address lands in [0x1240'0000'0000, 0x1280'0000'0000) |
| CfsanShadow.ShadowRanges | lib/cfsan/cfsan_shadow.h:121-137 | the eight endpoints isShadowMem tests, computed at scale 3 |
| CfsanShadow.AppAndShadowDisjoint | lib/cfsan/cfsan.cc:116-121 | for every application byte (not only region ends): not shadow, its shadow is shadow, and its shadow's shadow is not |
| CfsanShadow.IsShadowMem | lib/cfsan/cfsan_shadow.h:121-137 | shadow memory is the union of the four ranges [appToShadow(start), appToShadow(end - 1)], upper ends included |
| CfsanShadow.RegionImage | lib/cfsan/cfsan_shadow.h:121-137 | the i-th isShadowMem range, with its inclusive upper end, is exactly the image of region i |
| CfsanShadow.ShadowMemIsImage | lib/cfsan/cfsan_shadow.h:121-137 | isShadowMem(m) iff m is the shadow of some application byte |
| CfsanShadow.ShadowMappingChecks | lib/cfsan/cfsan.cc:111-121 | all ten sanity CHECKs of initializeShadow hold for every region |
| CfsanCoverage.BitOfOr | lib/cfsan/cfsan.cc:61 | `|=` sets a bit exactly when either operand has it |
| CfsanCoverage.HeadMask | lib/cfsan/cfsan.cc:57-60 | the head mask covers bits Mod .. min(Mod + Size, 8) - 1 and no other, in both branches |
| CfsanCoverage.TailMask | lib/cfsan/cfsan.cc:85 | the tail mask `(1 << n) - 1` covers exactly the low n bits, for n from 1 to 8 |
| CfsanCoverage.AllOnesBits | lib/cfsan/cfsan.cc:69-77 | an all-ones shadow byte covers its whole group |
| CfsanCoverage.ByteInItsGroup | lib/cfsan/cfsan.cc:52-53 | an application byte is bit a % 8 of the shadow byte of a |
| CfsanCoverage.MarkFrame | lib/cfsan/cfsan.cc:48-88 | shadow bytes whose group lies outside the range keep their value |
| CfsanCoverage.MarkIsMonotone | lib/cfsan/cfsan.cc:61-86 | an access never clears a bit: coverage only grows |
| CfsanCoverage.MarkIdempotent | lib/cfsan/cfsan.cc:48-88 | recording the same range twice leaves the shadow of recording it once |
| CfsanCoverage.MarkedSplit | lib/cfsan/cfsan.cc:48-88 | recording [lo, mid) then [mid, hi) is recording [lo, hi) |
| CfsanCoverage.MarkCommutes | lib/cfsan/cfsan.cc:48-88 | two accesses leave the same shadow in either order |
| CfsanCoverage.MarkExtend | lib/cfsan/cfsan.cc:61 | OR-ing a mask of exactly the next bytes of one group extends a recorded range by those bytes |
| CfsanCoverage.MarkFullGroup | lib/cfsan/cfsan.cc:76-81 | setting the next shadow byte to all ones extends a recorded range by a whole group |
| CfsanCoverage.AccessSetsExactlyTheRange | lib/cfsan/cfsan.cc:48-88 | after an access, a byte's bit is set iff it was set before or the byte is in [Addr, Addr + Size) |
| CfsanCoverage.AccessDeterministic | lib/cfsan/cfsan.cc:48-88 | the shadow after an access depends only on the old shadow, Addr and Size, not on PC or IsWrite |
| CfsanCoverage.AccessSplit | lib/cfsan/cfsan.cc:48-88 | an access of S1 bytes, then one of S2 bytes right after it, equals one access of S1 + S2 bytes |
| CfsanCoverage.AccessWithinOneGroup | lib/cfsan/cfsan.cc:56-66 | a range inside one group OR-s exactly `((1 << Size) - 1) << Mod` into one byte and changes nothing else |
| Cfsan.HeadCheckAsWritten | lib/cfsan/cfsan.cc:62-65 | the CHECK after the head byte, made only for an unaligned Addr: an aligned Addr never fails it |
| Cfsan.HeadCheckFailsExactlyAtApp3End | lib/cfsan/cfsan.cc:62-65 | the CHECK after the head fails iff Addr is unaligned and its next group boundary is kApp3End |
| Cfsan.HeadCheckFailsOnLastGroupOfApp3 | lib/cfsan/cfsan.cc:65 | a valid one-byte access at 0x7fff_ffff_fff9 makes that CHECK fail |
| Cfsan.HeadCheckCorrectedHolds | lib/cfsan/cfsan.cc:65 | made only when bytes remain after the head, the CHECK holds for every valid range |
| Cfsan.HeadCheckHoldsForWideRanges | lib/cfsan/cfsan.cc:62-65 | a valid range of eight bytes or more never fails the CHECK as written |
| Cfsan.GuardsOverflowAsWritten | lib/cfsan/cfsan.cc:57-81 | a valid range of 0x7fff_ffff bytes overflows the C `int` sums `Mod + Size`, `i + 32` and `i + 8`; wrapped, the loop guards stay true past the end of the range |
| Cfsan.GuardsCorrected | lib/cfsan/cfsan.cc:57-81 | the guards written as `Size >= 8 - Mod` and `Size - i > 32` (or 8) never overflow and agree with the unbounded reading of the guards |
| Cfsan.ShadowCursorInRegion | lib/cfsan/cfsan.cc:62-64 | the walked shadow cursor equals appToShadow of the walked address at every group start of the region |
| Cfsan.AlignedStart | lib/cfsan/cfsan.cc:51-56 | an aligned range skips the head phase, and its cursor is the shadow of Addr |
| Cfsan.ComputeHeadMask | lib/cfsan/cfsan.cc:57-60 | the head mask has exactly bits Mod .. Mod + Size - 1 (below 8) set, for every C `int` Size |
| Cfsan.ComputeTailMask | lib/cfsan/cfsan.cc:85 | the tail mask has exactly the low Size - i bits set |
| Cfsan.HeadStep | lib/cfsan/cfsan.cc:56-64 | after the head, the range is recorded up to the next group boundary, and the cursor stands there |
| Cfsan.HeadCheck | lib/cfsan/cfsan.cc:62-65 | the CHECK after the head fails only for a range that ends inside its first group |
| Cfsan.WordStep | lib/cfsan/cfsan.cc:68-73 | one turn of the word loop records 32 more bytes and moves the cursor 4 bytes |
| Cfsan.ByteStep | lib/cfsan/cfsan.cc:76-81 | one turn of the byte loop records 8 more bytes and moves the cursor 1 byte |
| Cfsan.CheckAfterLoop | lib/cfsan/cfsan.cc:75 | while bytes remain, the cursor is appToShadow of the address reached, inside the window |
| Cfsan.PastTheEnd | lib/cfsan/cfsan.cc:68-84 | once i has reached Size the whole range is recorded |
| Cfsan.TailStep | lib/cfsan/cfsan.cc:84-87 | OR-ing the tail mask into the last byte completes the range |
| Cfsan.Runtime.constructor | lib/cfsan/cfsan.cc:25 | at program start the tool is not initialised, all shadow is zero, and nothing is mapped |
| Cfsan.Runtime.ProcessRangeAccess | lib/cfsan/cfsan.cc:48-88 | with its guards made overflow-free, the new shadow is the old one with exactly the bits of [Addr, Addr + Size) set, for every C `int` Size; Died iff the head CHECK fails |
| Cfsan.Runtime.WriteHeadBits | lib/cfsan/cfsan.cc:55-66 | with the test made as `Size >= 8 - Mod`, the head phase reaches the group boundary with the cursor in step, or records the whole range when it dies |
| Cfsan.Runtime.WriteWords | lib/cfsan/cfsan.cc:67-73 | with the guard made as `Size - i > 32`, the word loop keeps the phase invariant and stops within 32 bytes of the end |
| Cfsan.Runtime.WriteBytes | lib/cfsan/cfsan.cc:74-81 | with the guard made as `Size - i > 8`, the byte loop keeps the phase invariant and stops within 8 bytes of the end |
| Cfsan.Runtime.WriteTailBits | lib/cfsan/cfsan.cc:82-87 | the tail phase leaves exactly the range recorded |
| Cfsan.Runtime.ProcessMemAccess | lib/cfsan/cfsan.cc:33-39 | records exactly 1 << SizeLog bytes at Addr |
| Cfsan.Runtime.ProcessUnalignedAccess | lib/cfsan/cfsan.cc:41-46 | records exactly Size bytes at Addr, through the overflow-free guards of processRangeAccess |
| Cfsan.ShadowRange | lib/cfsan/cfsan.cc:93-94 | the shadow range of each region lies inside the shadow window and is non-empty |
| Cfsan.ShadowRangeIsImage | lib/cfsan/cfsan.cc:93-94 | the mapped range of region i is exactly the shadow of region i |
| Cfsan.MappingOfRegion | lib/cfsan/cfsan.cc:93-98 | the (start, length) passed to mmap for region i is [appToShadow(start), appToShadow(end-1) + 1) |
| Cfsan.ShadowMappings | lib/cfsan/cfsan.cc:92-98 | the first n mappings are those of regions 0 .. n-1, in order |
| Cfsan.AppendMapping | lib/cfsan/cfsan.cc:92-98 | adding the mapping of region i to the first i gives the first i + 1 |
| Cfsan.MappedCount | lib/cfsan/cfsan.cc:98-102 | mmap places the shadow at its address for every region before the count, and not for the region at the count |
| Cfsan.MappedCountStep | lib/cfsan/cfsan.cc:98-102 | a region whose shadow was placed does not change the count |
| Cfsan.MappedCountStop | lib/cfsan/cfsan.cc:98-102 | the count stops at the first region whose shadow was not placed |
| Cfsan.ShadowBounds | lib/cfsan/cfsan.cc:93-94 | ShStart < ShEnd, and the range is Mapping(i) |
| Cfsan.CheckShadowMapping | lib/cfsan/cfsan.cc:111-121 | none of the ten CHECKs fires |
| Cfsan.Runtime.InitializeShadow | lib/cfsan/cfsan.cc:90-123 | maps the regions in order, and dies at the first whose shadow mmap does not place at its address |
| Cfsan.Runtime.InitializeLibrary | lib/cfsan/cfsan.cc:139-149 | only the first call maps shadow; later calls change nothing and never die |
| Dstune.WAWInstance | lib/dstune/dstune.cc:69-101 | an event keeps the mode, raises the counter until it saturates at 31, leaves the table alone below 31, and at 31 makes Addr a key of the table |
| Dstune.SetFirstPC | lib/dstune/dstune.cc:103-114 | creates no entry; only Addr's entry changes, and only its FirstPC, which becomes PC |
| Dstune.Step | lib/dstune/dstune.cc:140-154 | a read gives mode read and keeps the table; a write gives written-once from read and written-again from a written mode; the counter never falls |
| Dstune.Processed | lib/dstune/dstune.cc:136-158 | the specification of a range access: the steps of bytes Addr, Addr + 1, ... in ascending order (uptr addresses); ProcessedAt, ProcessedSplit and ProcessedKeepsEntries state what it does |
| Dstune.ReadStep | lib/dstune/dstune.cc:142-143 | a read sets the mode to read and leaves the flag, the counter and the table |
| Dstune.FirstWriteStep | lib/dstune/dstune.cc:144-149 | a write in read mode makes the byte written-once; a pending request sets the entry's FirstPC and clears the flag |
| Dstune.RepeatWriteStep | lib/dstune/dstune.cc:150-153 | a write after a write leaves the byte written-again and counts one event, in the counter or in the table |
| Dstune.StepIsLocal | lib/dstune/dstune.cc:140-157 | one byte's step changes nothing about any other address |
| Dstune.StepDependsOnlyOnAt | lib/dstune/dstune.cc:140-157 | a step's effect on a depends only on a's shadow byte and entry |
| Dstune.CounterNeverDecreases | lib/dstune/dstune.cc:74-77 | no step lowers any counter, not even a read |
| Dstune.StepKeepsModes | lib/dstune/dstune.cc:31-35 | a step never produces mode 3 |
| Dstune.StepKeepsEntries | lib/dstune/dstune.cc:140-157 | a step never removes an entry of the table |
| Dstune.ProcessedKeepsEntries | lib/dstune/dstune.cc:136-158 | a range access never removes an entry of the table |
| Dstune.ProcessedKeepsModes | lib/dstune/dstune.cc:136-158 | a range access never produces mode 3 |
| Dstune.ReadsKeepTable | lib/dstune/dstune.cc:142-143 | a read range access leaves the table unchanged |
| Dstune.OffsetOfByte | lib/dstune/dstune.cc:155 | the byte at offset k from Addr is the one whose uptr offset is k |
| Dstune.ProcessedAt | lib/dstune/dstune.cc:140-157 | each byte of the range is processed exactly once, under its own address; other bytes keep their state |
| Dstune.ProcessedSplit | lib/dstune/dstune.cc:141-157 | m bytes, then n bytes from Addr + m, equal one access of m + n bytes in ascending order |
| Dstune.CountWraps | lib/dstune/dstune.cc:86 | the u64 `Count++` of a count n mod 2^64 gives n + 1 mod 2^64 |
| Dstune.WAWHistory | lib/dstune/dstune.cc:69-101 | after n events on a fresh byte: n <= 31 gives no entry and counter n; n >= 32 gives an entry with Count n (u64) and SecondPC the PC of the 32nd event |
| Dstune.Runtime.constructor | lib/dstune/dstune.cc:26 | at program start the tool is not initialised, with zero shadow and an empty table |
| Dstune.Runtime.ProcessWAWInstance | lib/dstune/dstune.cc:69-101 | the new state is WAWInstance of the old one |
| Dstune.Runtime.SetWAWFirstPC | lib/dstune/dstune.cc:103-114 | the table becomes SetFirstPC of the old one, and the shadow is untouched |
| Dstune.Runtime.AccessByte | lib/dstune/dstune.cc:142-154 | the new state is Step of the old one |
| Dstune.Runtime.ProcessRangeAccess | lib/dstune/dstune.cc:136-158 | the new state is Processed over max(Size, 0) bytes from Addr |
| Dstune.Runtime.ProcessMemAccess | lib/dstune/dstune.cc:121-127 | the same as a range access of 1 << SizeLog bytes |
| Dstune.Runtime.ProcessUnalignedAccess | lib/dstune/dstune.cc:129-134 | the same as a range access of Size bytes |
| Dstune.Runtime.InitializeLibrary | lib/dstune/dstune.cc:213-223 | only the first call creates an empty table; later calls change nothing |
| Dstune.Runtime.FinalizeLibrary | lib/dstune/dstune.cc:225-242 | returns 0 and modifies nothing |
| EntryPoints.Accesses | lib/cfsan/cfsan_interface.cc:29-101 | one or two ranges at Addr, with the entry's PC and kind, contiguous, of K bytes in total |
| CfsanInterface.AccessesCover | lib/cfsan/cfsan_interface.cc:61-69 | the ranges of any entry point, read16 and write16 included, record one access of K bytes |
| CfsanInterface.SameWidthSameShadow | lib/cfsan/cfsan_interface.cc:29-101 | entry points of equal width at the same address leave the same shadow: read or write, aligned or unaligned, any PC |
| CfsanInterface.Init | lib/cfsan/cfsan_interface.cc:21-23 | delegates to the once-only initializeLibrary |
| CfsanInterface.Call | lib/cfsan/cfsan_interface.cc:29-101 | an entry point records its K bytes, or dies when the head CHECK of one of its ranges fails, which no entry point of 8 or 16 bytes can |
| DstuneInterface.Run | lib/dstune/dstune_interface.cc:27-99 | the ranges of an entry point run in order through processRangeAccess, and no table entry is ever removed |
| DstuneInterface.RunTwo | lib/dstune/dstune_interface.cc:59-67 | two ranges run one after the other: the second starts from the state the first leaves |
| DstuneInterface.EntryIsOneRange | lib/dstune/dstune_interface.cc:27-99 | every entry point, read16 and write16 included, is one access of K bytes from Addr |
| DstuneInterface.SameWidthSameEffect | lib/dstune/dstune_interface.cc:59-99 | aligned and unaligned entry points of equal width and kind have the same effect |
| DstuneInterface.ReadEntryKeepsTable | lib/dstune/dstune_interface.cc:27-41 | read entry points never create or update table entries |
| DstuneInterface.Init | lib/dstune/dstune_interface.cc:20-22 | delegates to the once-only initializeLibrary |
| DstuneInterface.Call | lib/dstune/dstune_interface.cc:27-99 | the new state is Processed over the entry point's K bytes |
| Interceptors.StrLen | lib/cfsan/cfsan_interceptors.cc:136 | internal_strlen is the index of the first NUL |
| Interceptors.StrNLen | lib/cfsan/cfsan_interceptors.cc:143 | internal_strnlen is the index of the first NUL, or n when the first n characters hold none |
| Interceptors.Strcpy | lib/cfsan/cfsan_interceptors.cc:135-140 | a write at dst, then a read at src, of exactly the source string and its NUL |
| Interceptors.Strncpy | lib/cfsan/cfsan_interceptors.cc:142-148 | a write of n bytes at dst, then a read at src of the string through its NUL, cut at n bytes |
| Interceptors.Fread | lib/cfsan/cfsan_interceptors.cc:265-268 | a write of size * nmemb bytes (uptr product) at ptr |
| Interceptors.Fwrite | lib/cfsan/cfsan_interceptors.cc:270-273 | a read of size * nmemb bytes (uptr product) at p |
| Interceptors.Puts | lib/cfsan/cfsan_interceptors.cc:275-278 | a read of the string without its terminating NUL |
| Interceptors.IsFixed | lib/cfsan/cfsan_interceptors.cc:289 | `flags & MAP_FIXED` tests bit 4 of the two's-complement flags word |
| Interceptors.FixedHint | lib/cfsan/cfsan_interceptors.cc:286-298 | a hint fails iff it is non-null, an endpoint is outside application memory, and MAP_FIXED is set; a null hint or one with both endpoints in application memory is passed on unchanged; any other is cleared to 0 |
| Interceptors.FixedHintIdempotent | lib/dstune/dstune_interceptors.cc:339-351 | a hint that gets through gets through unchanged a second time |
| Interceptors.FixMmapAddr | lib/cfsan/cfsan_interceptors.cc:286-298 | returns true with the fixed hint, or false with errno EINVAL and the hint unchanged |
| Interceptors.Mmap | lib/cfsan/cfsan_interceptors.cc:300-305 | returns (void*)-1 without calling the real mmap when the hint is refused, else the real mmap of the fixed hint |
| CfsanInterceptors.AcceptedHintInOneRegion | lib/cfsan/cfsan_interceptors.cc:287-288 | an accepted hint whose two ends lie in one region keeps the whole mapping in that region |
| CfsanInterceptors.HintAcrossGapAccepted | lib/cfsan/cfsan_interceptors.cc:287-288 | a hint from region 0 into region 1 is accepted although the bytes between are not application memory |
| CfsanInterceptors.HintWrappingAroundAccepted | lib/cfsan/cfsan_interceptors.cc:287-288 | a hint whose last byte wraps to address 0 is accepted |
| DstuneInterceptors.Memset | lib/dstune/dstune_interceptors.cc:98-103 | a write of size bytes at dst, only when the tool is initialized |
| DstuneInterceptors.Memmove | lib/dstune/dstune_interceptors.cc:105-111 | a write of n bytes at dst, then a read of n at src, only when initialized |
| DstuneInterceptors.Memcpy | lib/dstune/dstune_interceptors.cc:150-157 | the same ranges as memmove |
| DstuneInterceptors.Strlen | lib/dstune/dstune_interceptors.cc:159-164 | returns the length and reads it plus the terminator |
| DstuneInterceptors.Strrchr | lib/dstune/dstune_interceptors.cc:183-186 | a read of the string and its terminator, whatever character is searched for |
| DstuneInterceptors.ReadsOnlyKeepTable | lib/dstune/dstune_interceptors.cc:159-186 | ranges that are all reads leave the write-after-write table unchanged |
| DstuneInterceptors.CopiesBeforeInitInvisible | lib/dstune/dstune_interceptors.cc:98-157 | before initialization memset, memmove and memcpy leave the detector untouched |
| DstuneInterceptors.StringReadersKeepTable | lib/dstune/dstune_interceptors.cc:318-331 | strlen, strrchr, puts and fwrite never record a write-after-write instance |

The shared interceptor members above are also the model of the identical dstune
code: strcpy and strncpy at `lib/dstune/dstune_interceptors.cc:188-201`, fread,
fwrite and puts at `:318-331`, and fix_mmap_addr and mmap at `:339-358`.

## Left out

- Shadow reservation and OS hints are left out. These are `MmapFixedNoReserve` (a function parameter of `InitializeShadow`), `NoHugePagesInRegion`, `DontDumpShadowMemory`, flag parsing, `VPrintf`, `Report` and `Die`; they are operating-system I/O. A fatal `Die` or a failed `CHECK` is a `Died` result.
- The report printed by dstune's `finalizeLibrary` is left out (I/O). cfsan's `finalizeLibrary` only prints and returns 0, and is not modelled.
- `initializeInterceptors` is not modelled; it is the registration of interceptors with the loader.
- AddrHashMap internals are left out: handles, locking, the 31051000 capacity. The table is a plain map. `removeWAWData` is unused in the source and is not modelled.
- Races on shadow bytes are left out. The model is single-threaded.
- dstune's address mapping is not part of this model: its header is not in the sources. The dstune shadow is a map keyed by application address. The dstune mmap interceptor receives `isAppMem` as a parameter.
- The common interceptors from `sanitizer_common_interceptors.inc` are not part of this model, and neither are the syscall hooks or the `COMMON_INTERCEPTOR_READ_STRING` family (strchr, stat, open, ...). Their `COMMON_INTERCEPTOR_ENTER` returns straight to libc once the tool is initialised.
- The real libc calls (`REAL(...)`), `CUR_PC` and `CALLERPC` are not modelled. The PC is a parameter, and the real mmap is a function of the hint and length.
- Interceptors.Strcpy: the uptr-to-int narrowing of the size passed to `processRangeAccess` is not modelled. The interceptor ranges carry the uptr value.
- Interceptors.Strncpy, Interceptors.Fread, Interceptors.Fwrite, Interceptors.Puts, DstuneInterceptors.Memset, DstuneInterceptors.Memmove, DstuneInterceptors.Memcpy, DstuneInterceptors.Strlen, DstuneInterceptors.Strrchr: the same narrowing is not modelled.
- Cfsan.Runtime.ProcessRangeAccess requires `[Addr, Addr + Size)` to be a non-negative range inside one application region. The source does not check this, and a wild range would write outside the shadow window.
- Cfsan.Runtime.ProcessRangeAccess: the guards `Mod + Size >= 8`, `i + 32 < Size` and `i + 8 < Size` are evaluated in the overflow-free forms `Size >= 8 - Mod`, `Size - i > 32` and `Size - i > 8`. The C sums overflow for Size above 0x7fff_ffdf (see Findings), and the model does not follow the stores past the range that the wrapped guards allow.
- Cfsan.Runtime.WriteHeadBits: the test `Mod + Size >= 8` is made as `Size >= 8 - Mod`. As written it overflows for Size above 0x7fff_ffff - Mod, and then shifts `1U` by Size; that branch is not modelled.
- Cfsan.Runtime.WriteWords: the guard `i + 32 < Size` is made as `Size - i > 32`. As written it overflows once i passes 0x7fff_ffdf; the stores past the range that follow are not modelled.
- Cfsan.Runtime.WriteBytes: the guard `i + 8 < Size` is made as `Size - i > 8`. As written it overflows once i passes 0x7fff_fff7; the stores that follow are not modelled.
- Cfsan.Runtime.ProcessUnalignedAccess: forwards to the corrected processRangeAccess, so for Size above 0x7fff_ffdf it promises the range recorded where the code as written overflows.
- Cfsan.Runtime.ProcessRangeAccess: a failed CHECK ends the process in the source. The model returns `Died` after the head instead, with the range already recorded.
- Cfsan.Runtime.ProcessRangeAccess: the 4-byte store `*(int *)Shadow = -1` is modelled as four byte stores of 0xff. The result is the same, but the unaligned word store itself is not modelled.
- Cfsan.Runtime.ProcessMemAccess: SizeLog is limited to 0..30, the shifts that stay a positive C `int`. The entry points pass 0..3.
- Cfsan.Runtime.InitializeShadow: the ten sanity CHECKs are proved to hold, so the model cannot show the process dying on them. Only the mmap failure can make it die.
- Dstune.WAWHistory states the event count modulo 2^64, as the u64 `Count` holds it. It does not state the unbounded count.
- Dstune.Runtime.ProcessRangeAccess: the shadow cursor is assumed to advance with the address (dstune's mapping is 1:1 per byte). That mapping is not part of this model.
- CfsanInterface.Call requires the whole K-byte range to lie in one region, like `ProcessRangeAccess`.
- CfsanInterface.Call: read16 and write16 cannot fail on either range here. An unaligned Addr whose next group boundary is kApp3End has fewer than 8 bytes left in its region, so under the one-region requirement no entry point of 8 or more bytes dies (Cfsan.HeadCheckHoldsForWideRanges).
- The helper methods and lemmas of the phases have no counterpart as separate functions in the source: `WriteHeadBits`, `WriteWords`, `WriteBytes`, `WriteTailBits`, `AccessByte`, `ShadowBounds` and `CheckShadowMapping`. Each is one contiguous part of the function it is cited against.

## Findings

| source | as written | input that shows it | evidently intended | confidence | as-written member | corrected member |
|---|---|---|---|---|---|---|
| lib/cfsan/cfsan.cc:57-81 | The guards `Mod + Size >= 8`, `i + 32 < Size` and `i + 8 < Size` are C `int` sums. For a Size near INT_MAX they overflow (undefined behaviour); with two's-complement wrap the loop guards stay true, so the word loop goes on storing -1 into shadow past the end of the range, and the head test sends the access into `1U << Size` with Size above 31. | `processRangeAccess(PC, 0, 0x7fff_ffff, true)`: the word loop reaches i = 0x7fff_ffe0, where `i + 32` is 2^31; `processRangeAccess(PC, 1, 0x7fff_ffff, true)` for the head test | the guards compared as `Size >= 8 - Mod` and `Size - i > 32` (or 8), which cannot overflow for 0 <= i and 0 <= Size | not executed | Cfsan.GuardsOverflowAsWritten | Cfsan.Runtime.ProcessRangeAccess |
| lib/cfsan/cfsan.cc:62-65 | After the head byte, `CHECK(appToShadow(Addr) == Shadow)` runs even when the range ended inside the first group. When that group is the last one below `kApp3End`, `Addr` has moved to `kApp3End`. That address is outside application memory and masks to the bottom of the window, so the CHECK kills the process on a valid access. | `processRangeAccess(PC, 0x7fff_ffff_fff9, 1, false)`: a one-byte read of the last group of the stack region | the CHECK is made only when bytes remain after the head (or the cursor is compared without being used again) | not executed | Cfsan.HeadCheckFailsOnLastGroupOfApp3 | Cfsan.HeadCheckCorrectedHolds |
