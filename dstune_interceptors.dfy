/**
 * The interceptors only dstune defines: memset, memmove and memcpy forward
 * their ranges only once the tool is initialized, strlen and strrchr read
 * the string with its terminator unconditionally.  Their effect on the
 * detector is `Run` over the ranges; the lemmas say which of them can and
 * cannot record write-after-write instances.
 */
module DstuneInterceptors {
  import opened Common
  import opened Interceptors
  import opened Dstune
  import opened DstuneInterface

  /** memset: a write of size bytes at dst, forwarded only when the tool is initialized. */
  function Memset(PC: uptr, Initialized: bool, dst: uptr, size: uptr): (r: seq<RangeAccess>)
    ensures Initialized ==> r == [RangeAccess(PC, dst, size, true)]
    ensures !Initialized ==> r == []
  {
    if Initialized then [RangeAccess(PC, dst, size, true)] else []
  }

  /** memmove: a write of n bytes at dst, then a read of n bytes at src, only when initialized. */
  function Memmove(PC: uptr, Initialized: bool, dst: uptr, src: uptr, n: uptr): (r: seq<RangeAccess>)
    ensures Initialized ==> r == [RangeAccess(PC, dst, n, true), RangeAccess(PC, src, n, false)]
    ensures !Initialized ==> r == []
  {
    if Initialized then [RangeAccess(PC, dst, n, true), RangeAccess(PC, src, n, false)] else []
  }

  /** memcpy forwards what memmove forwards (and calls the real memmove). */
  function Memcpy(PC: uptr, Initialized: bool, dst: uptr, src: uptr, size: uptr): (r: seq<RangeAccess>)
    ensures Initialized ==> r == [RangeAccess(PC, dst, size, true), RangeAccess(PC, src, size, false)]
    ensures !Initialized ==> r == []
  {
    Memmove(PC, Initialized, dst, src, size)
  }

  /** strlen: returns the length Len and reads Len + 1 bytes, the terminator included. */
  function Strlen(PC: uptr, p: uptr, s: seq<char>): (r: (uptr, seq<RangeAccess>))
    requires IsCString(s)
    ensures r.0 < |s| && s[r.0] == '\0' && forall i | 0 <= i < r.0 :: s[i] != '\0'
    ensures r.1 == [RangeAccess(PC, p, r.0 + 1, false)]
  {
    var Len := StrLen(s);
    (Len, [RangeAccess(PC, p, Len + 1, false)])
  }

  /** strrchr: a read of the string and its terminator, whatever character is searched for. */
  function Strrchr(PC: uptr, p: uptr, s: seq<char>): (r: seq<RangeAccess>)
    requires IsCString(s)
    ensures |r| == 1 && r[0].Addr == p && !r[0].IsWrite
    ensures 0 < r[0].Size <= |s| && s[r[0].Size - 1] == '\0' && forall i | 0 <= i < r[0].Size - 1 :: s[i] != '\0'
  {
    [RangeAccess(PC, p, StrLen(s) + 1, false)]
  }

  /** Ranges that are all reads leave the table of write-after-write instances as it was. */
  lemma {:induction false} ReadsOnlyKeepTable(st: State, accs: seq<RangeAccess>)
    requires forall i | 0 <= i < |accs| :: !accs[i].IsWrite
    ensures Run(st, accs).Table == st.Table
    decreases |accs|
  {
    if accs != [] {
      var a := accs[0];
      var n := if a.Size < 0 then 0 else a.Size;
      ReadsKeepTable(st, a.PC, a.Addr, n);
      ReadsOnlyKeepTable(Processed(st, a.PC, a.Addr, n, false), accs[1..]);
    }
  }

  /** Before initialization memset, memmove and memcpy leave the detector untouched. */
  lemma CopiesBeforeInitInvisible(st: State, PC: uptr, dst: uptr, src: uptr, n: uptr)
    ensures Run(st, Memset(PC, false, dst, n)) == st
    ensures Run(st, Memmove(PC, false, dst, src, n)) == st
    ensures Run(st, Memcpy(PC, false, dst, src, n)) == st
  {
  }

  /**
   * The string-reading interceptors (strlen, strrchr, puts, fwrite) never
   * record a write-after-write instance.
   */
  lemma StringReadersKeepTable(st: State, PC: uptr, p: uptr, s: seq<char>, size: uptr, nmemb: uptr)
    requires IsCString(s)
    ensures Run(st, Strlen(PC, p, s).1).Table == st.Table
    ensures Run(st, Strrchr(PC, p, s)).Table == st.Table
    ensures Run(st, Puts(PC, p, s)).Table == st.Table
    ensures Run(st, Fwrite(PC, p, size, nmemb)).Table == st.Table
  {
    ReadsOnlyKeepTable(st, Strlen(PC, p, s).1);
    ReadsOnlyKeepTable(st, Strrchr(PC, p, s));
    ReadsOnlyKeepTable(st, Puts(PC, p, s));
    ReadsOnlyKeepTable(st, Fwrite(PC, p, size, nmemb));
  }
}
