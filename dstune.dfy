/**
 * The DeadStoreTuner (dstune) run-time: a write-after-write detector.
 *
 * Every application byte has a one-byte shadow, a `ShadowByte` with three
 * bit-fields: the mode of the last access (read, written once, written
 * again), a flag asking for the PC of the next first write, and a 5-bit
 * counter of the write-after-write events seen on that byte.  When the
 * counter is saturated the event goes to a table keyed by application
 * address, holding the number of events and two PCs.
 *
 * dstune's address mapping is not part of this model; the shadow is kept
 * as a map from application address to its shadow byte (absent = zero, as
 * freshly mapped shadow memory is), and the table as a map from address
 * to its entry.
 *
 * The step functions (`Step`, `WAWInstance`, `SetFirstPC`, `Processed`)
 * are the specification the `Runtime` methods are proved against; the
 * lemmas below them state what the detector promises.
 */
module Dstune {
  import opened Common

  // ---------------------------------------------------------------------
  // Shadow bytes and table entries

  /** The modes of a shadow byte. */
  const ModeRead: int := 0
  const ModeWrittenOnce: int := 1
  const ModeWrittenAgain: int := 2

  /** The counter saturates at (1 << SHADOW_COUNTER_BITS) - 1. */
  const SHADOW_COUNTER_BITS: nat := 5
  const kShadowCounterMax: int := 31

  /** The widths of the three bit-fields of a shadow byte. */
  type bits1 = x: int | 0 <= x < 2
  type bits2 = x: int | 0 <= x < 4
  type bits5 = x: int | 0 <= x < 32

  /** `struct ShadowByte { Mode:2; ContextRequested:1; Counter:5; }` */
  datatype ShadowByte = ShadowByte(Mode: bits2, ContextRequested: bits1, Counter: bits5)

  /** A shadow byte of freshly mapped (zero-filled) shadow memory. */
  const Zero: ShadowByte := ShadowByte(0, 0, 0)

  /** The payload of the table: `u64 Count; uptr FirstPC; uptr SecondPC;`. */
  datatype WriteAfterWrite = WriteAfterWrite(Count: uptr, FirstPC: uptr, SecondPC: uptr)

  type ShadowMap = map<uptr, ShadowByte>
  type Table = map<uptr, WriteAfterWrite>

  /** The shadow byte of application address a. */
  function ShadowOf(sh: ShadowMap, a: uptr): ShadowByte
  {
    if a in sh then sh[a] else Zero
  }

  /** The detector's whole state: every shadow byte and the table. */
  datatype State = State(Shadow: ShadowMap, Table: Table)

  /** Everything the detector knows about address a: its shadow byte and its entry, if any. */
  function At(st: State, a: uptr): (ShadowByte, Option<WriteAfterWrite>)
  {
    (ShadowOf(st.Shadow, a), if a in st.Table then Some(st.Table[a]) else None)
  }

  // ---------------------------------------------------------------------
  // The specification of one step

  /**
   * processWAWInstance on the shadow byte of Addr: count the event in the
   * byte while its counter is below the maximum; then count it in Addr's
   * entry, creating the entry (and asking for a first PC) the first time.
   */
  function WAWInstance(st: State, PC: uptr, Addr: uptr): (r: State)
    ensures var b := ShadowOf(st.Shadow, Addr); var b' := ShadowOf(r.Shadow, Addr);
      && b'.Mode == b.Mode
      && b'.Counter == (if b.Counter < kShadowCounterMax then b.Counter + 1 else kShadowCounterMax)
      && (b.Counter < kShadowCounterMax ==> r.Table == st.Table)
      && (b.Counter == kShadowCounterMax ==> r.Table.Keys == st.Table.Keys + {Addr})
  {
    var b := ShadowOf(st.Shadow, Addr);
    if b.Counter != kShadowCounterMax then
      State(st.Shadow[Addr := b.(Counter := b.Counter + 1)], st.Table)
    else if Addr in st.Table then
      State(st.Shadow, st.Table[Addr := st.Table[Addr].(Count := Wrap(st.Table[Addr].Count + 1))])
    else
      State(st.Shadow[Addr := b.(ContextRequested := 1)],
            st.Table[Addr := WriteAfterWrite(kShadowCounterMax + 1, 0, PC)])
  }

  /** setWAWFirstPC: record PC as the first PC of Addr's entry, if it has one. */
  function SetFirstPC(t: Table, PC: uptr, Addr: uptr): (r: Table)
    ensures r.Keys == t.Keys
    ensures Addr in t ==> r[Addr].FirstPC == PC
    ensures forall a | a in t :: r[a].Count == t[a].Count && r[a].SecondPC == t[a].SecondPC && (a != Addr ==> r[a] == t[a])
  {
    if Addr in t then t[Addr := t[Addr].(FirstPC := PC)] else t
  }

  /** One turn of processRangeAccess's loop: the access of the byte at Addr. */
  function Step(st: State, PC: uptr, Addr: uptr, IsWrite: bool): (r: State)
    ensures var b := ShadowOf(st.Shadow, Addr); var b' := ShadowOf(r.Shadow, Addr);
      && (!IsWrite ==> b'.Mode == ModeRead && r.Table == st.Table)
      && (IsWrite && b.Mode == ModeRead ==> b'.Mode == ModeWrittenOnce)
      && (IsWrite && b.Mode in {ModeWrittenOnce, ModeWrittenAgain} ==> b'.Mode == ModeWrittenAgain)
      && b'.Counter >= b.Counter
  {
    var b := ShadowOf(st.Shadow, Addr);
    if !IsWrite then
      State(st.Shadow[Addr := b.(Mode := ModeRead)], st.Table)
    else if b.Mode == ModeRead then
      if b.ContextRequested != 0 then
        State(st.Shadow[Addr := b.(Mode := ModeWrittenOnce, ContextRequested := 0)], SetFirstPC(st.Table, PC, Addr))
      else
        State(st.Shadow[Addr := b.(Mode := ModeWrittenOnce)], st.Table)
    else
      var sh := if b.Mode == ModeWrittenOnce then st.Shadow[Addr := b.(Mode := ModeWrittenAgain)] else st.Shadow;
      WAWInstance(State(sh, st.Table), PC, Addr)
  }

  /**
   * The first n turns of processRangeAccess(PC, Addr, _, IsWrite): bytes
   * Addr, Addr + 1, ... in that order.
   */
  function Processed(st: State, PC: uptr, Addr: uptr, n: nat, IsWrite: bool): State
  {
    if n == 0 then st else Step(Processed(st, PC, Addr, n - 1, IsWrite), PC, Wrap(Addr + (n - 1)), IsWrite)
  }

  // ---------------------------------------------------------------------
  // What one step does

  /** A read sets the mode to read and changes nothing else: not the flag, not the counter, not the table. */
  lemma ReadStep(st: State, PC: uptr, a: uptr)
    ensures var r := Step(st, PC, a, false);
      && ShadowOf(r.Shadow, a) == ShadowOf(st.Shadow, a).(Mode := ModeRead)
      && r.Table == st.Table
  {
  }

  /**
   * A write to a byte in read mode makes it written-once and is no event;
   * if a first PC was asked for, PC becomes the entry's first PC and the
   * request is cleared.
   */
  lemma FirstWriteStep(st: State, PC: uptr, a: uptr)
    requires ShadowOf(st.Shadow, a).Mode == ModeRead
    ensures var r := Step(st, PC, a, true); var b := ShadowOf(st.Shadow, a);
      && ShadowOf(r.Shadow, a) == b.(Mode := ModeWrittenOnce, ContextRequested := 0)
      && (b.ContextRequested == 0 ==> r.Table == st.Table)
      && (b.ContextRequested != 0 && a in st.Table ==> r.Table == st.Table[a := st.Table[a].(FirstPC := PC)])
      && (a !in st.Table ==> r.Table == st.Table)
  {
  }

  /**
   * A write to a byte already written is a write-after-write event: the
   * byte ends written-again; below the maximum only the counter moves; at
   * the maximum an existing entry counts one more and a new entry starts
   * at 32 with no first PC, PC as second PC, and a request for a first PC.
   */
  lemma RepeatWriteStep(st: State, PC: uptr, a: uptr)
    requires ShadowOf(st.Shadow, a).Mode in {ModeWrittenOnce, ModeWrittenAgain}
    ensures var r := Step(st, PC, a, true); var b := ShadowOf(st.Shadow, a); var b' := ShadowOf(r.Shadow, a);
      && b'.Mode == ModeWrittenAgain
      && (b.Counter < kShadowCounterMax ==> b' == b.(Mode := ModeWrittenAgain, Counter := b.Counter + 1) && r.Table == st.Table)
      && (b.Counter == kShadowCounterMax && a in st.Table ==>
            b' == b.(Mode := ModeWrittenAgain)
            && r.Table == st.Table[a := st.Table[a].(Count := Wrap(st.Table[a].Count + 1))])
      && (b.Counter == kShadowCounterMax && a !in st.Table ==>
            b' == b.(Mode := ModeWrittenAgain, ContextRequested := 1)
            && r.Table == st.Table[a := WriteAfterWrite(32, 0, PC)])
  {
  }

  /** A step at a changes nothing about any other address. */
  lemma StepIsLocal(st: State, PC: uptr, a: uptr, IsWrite: bool, b: uptr)
    requires b != a
    ensures At(Step(st, PC, a, IsWrite), b) == At(st, b)
  {
  }

  /** What a step does at a depends only on what was known about a. */
  lemma StepDependsOnlyOnAt(st1: State, st2: State, PC: uptr, a: uptr, IsWrite: bool)
    requires At(st1, a) == At(st2, a)
    ensures At(Step(st1, PC, a, IsWrite), a) == At(Step(st2, PC, a, IsWrite), a)
  {
  }

  /** No step ever lowers a counter, not even a read. */
  lemma CounterNeverDecreases(st: State, PC: uptr, a: uptr, IsWrite: bool, b: uptr)
    ensures ShadowOf(Step(st, PC, a, IsWrite).Shadow, b).Counter >= ShadowOf(st.Shadow, b).Counter
  {
  }

  /** Every shadow byte holds one of the three modes. */
  ghost predicate ModesValid(sh: ShadowMap)
  {
    forall a | a in sh :: sh[a].Mode != 3
  }

  /** A step never produces mode 3. */
  lemma StepKeepsModes(st: State, PC: uptr, a: uptr, IsWrite: bool)
    requires ModesValid(st.Shadow)
    ensures ModesValid(Step(st, PC, a, IsWrite).Shadow)
  {
    var r := Step(st, PC, a, IsWrite);
    forall x | x in r.Shadow
      ensures r.Shadow[x].Mode != 3
    {
      if x != a {
        StepIsLocal(st, PC, a, IsWrite, x);
      }
    }
  }

  // ---------------------------------------------------------------------
  // What a range access does

  /** A range access never produces mode 3. */
  lemma {:induction false} ProcessedKeepsModes(st: State, PC: uptr, Addr: uptr, n: nat, IsWrite: bool)
    requires ModesValid(st.Shadow)
    ensures ModesValid(Processed(st, PC, Addr, n, IsWrite).Shadow)
  {
    if n > 0 {
      ProcessedKeepsModes(st, PC, Addr, n - 1, IsWrite);
      StepKeepsModes(Processed(st, PC, Addr, n - 1, IsWrite), PC, Wrap(Addr + (n - 1)), IsWrite);
    }
  }

  /** A step never removes an entry of the table. */
  lemma StepKeepsEntries(st: State, PC: uptr, a: uptr, IsWrite: bool)
    ensures st.Table.Keys <= Step(st, PC, a, IsWrite).Table.Keys
  {
  }

  /** A range access never removes an entry of the table. */
  lemma {:induction false} ProcessedKeepsEntries(st: State, PC: uptr, Addr: uptr, n: nat, IsWrite: bool)
    ensures st.Table.Keys <= Processed(st, PC, Addr, n, IsWrite).Table.Keys
  {
    if n > 0 {
      ProcessedKeepsEntries(st, PC, Addr, n - 1, IsWrite);
      StepKeepsEntries(Processed(st, PC, Addr, n - 1, IsWrite), PC, Wrap(Addr + (n - 1)), IsWrite);
    }
  }

  /** A read range access leaves the table as it was. */
  lemma {:induction false} ReadsKeepTable(st: State, PC: uptr, Addr: uptr, n: nat)
    ensures Processed(st, PC, Addr, n, false).Table == st.Table
  {
    if n > 0 {
      ReadsKeepTable(st, PC, Addr, n - 1);
    }
  }

  /** The offset of b from Addr, as the C `b - Addr` on `uptr`s. */
  function Offset(Addr: uptr, b: uptr): uptr
  {
    Wrap(b - Addr)
  }

  /** The byte at offset k from Addr is the one whose offset is k. */
  lemma OffsetOfByte(Addr: uptr, k: int, b: uptr)
    requires 0 <= k < WORD
    ensures b == Wrap(Addr + k) <==> Offset(Addr, b) == k
  {
  }

  /**
   * Each byte of the range is processed exactly once, under its own
   * address: for a byte at offset below n from Addr, the state is one
   * step applied to what was known about that byte before; every other
   * byte keeps its state.
   */
  lemma {:induction false} ProcessedAt(st: State, PC: uptr, Addr: uptr, n: nat, IsWrite: bool, b: uptr)
    requires n <= WORD
    ensures Offset(Addr, b) < n ==> At(Processed(st, PC, Addr, n, IsWrite), b) == At(Step(st, PC, b, IsWrite), b)
    ensures n <= Offset(Addr, b) ==> At(Processed(st, PC, Addr, n, IsWrite), b) == At(st, b)
  {
    if n > 0 {
      var p := Processed(st, PC, Addr, n - 1, IsWrite);
      ProcessedAt(st, PC, Addr, n - 1, IsWrite, b);
      var last := Wrap(Addr + (n - 1));
      OffsetOfByte(Addr, n - 1, b);
      if b == last {
        StepDependsOnlyOnAt(p, st, PC, b, IsWrite);
      } else {
        StepIsLocal(p, PC, last, IsWrite, b);
      }
    }
  }

  /** Two range accesses back to back are one range access over both. */
  lemma {:induction false} ProcessedSplit(st: State, PC: uptr, Addr: uptr, m: nat, n: nat, IsWrite: bool)
    ensures Processed(Processed(st, PC, Addr, m, IsWrite), PC, Wrap(Addr + m), n, IsWrite)
         == Processed(st, PC, Addr, m + n, IsWrite)
  {
    if n > 0 {
      ProcessedSplit(st, PC, Addr, m, n - 1, IsWrite);
      WrapAdd(Addr + m, n - 1);
      assert Wrap(Wrap(Addr + m) + (n - 1)) == Wrap(Addr + (m + n - 1));
    }
  }

  // ---------------------------------------------------------------------
  // The history of one address

  /** The state after the accesses h (PC, IsWrite), oldest first, all to address a. */
  function Replay(st: State, a: uptr, h: seq<(uptr, bool)>): State
  {
    if h == [] then st else Step(Replay(st, a, h[..|h| - 1]), h[|h| - 1].0, a, h[|h| - 1].1)
  }

  /**
   * The PCs of the write-after-write events in h, in order: the writes
   * whose previous access was also a write.  On a fresh byte the first
   * write is no event, and neither is a write after a read.
   */
  function EventPCs(h: seq<(uptr, bool)>): seq<uptr>
  {
    if |h| < 2 then []
    else EventPCs(h[..|h| - 1]) + (if h[|h| - 1].1 && h[|h| - 2].1 then [h[|h| - 1].0] else [])
  }

  /** The mode a fresh byte is in after the accesses h. */
  function ModeAfter(h: seq<(uptr, bool)>): int
  {
    if h == [] || !h[|h| - 1].1 then ModeRead
    else if |h| >= 2 && h[|h| - 2].1 then ModeWrittenAgain
    else ModeWrittenOnce
  }

  /** The u64 `Count++`: one more than n, modulo 2^64, is n + 1 modulo 2^64. */
  lemma CountWraps(n: int)
    requires 0 <= n
    ensures Wrap(n % WORD + 1) == (n + 1) % WORD
  {
  }

  /**
   * After n write-after-write events on a fresh byte with no entry: up to
   * 31 events leave no entry and a counter of n; from the 32nd on, the
   * entry exists, counts all n events (as a u64), and its second PC is the
   * PC of the 32nd event.
   */
  lemma {:induction false} WAWHistory(st: State, a: uptr, h: seq<(uptr, bool)>)
    requires ShadowOf(st.Shadow, a) == Zero && a !in st.Table
    ensures var r := Replay(st, a, h); var n := |EventPCs(h)|; var b := ShadowOf(r.Shadow, a);
      && b.Mode == ModeAfter(h)
      && b.Counter == (if n < kShadowCounterMax then n else kShadowCounterMax)
      && (n <= kShadowCounterMax ==> a !in r.Table)
      && (n > kShadowCounterMax ==>
            a in r.Table && r.Table[a].Count == n % WORD && r.Table[a].SecondPC == EventPCs(h)[kShadowCounterMax])
  {
    if h != [] {
      var h' := h[..|h| - 1];
      WAWHistory(st, a, h');
      var p := Replay(st, a, h');
      var n' := |EventPCs(h')|;
      if |h| >= 2 {
        assert h'[..|h'| - 1] == h[..|h| - 2];
        assert h'[|h'| - 1] == h[|h| - 2];
      }
      if h[|h| - 1].1 && n' > kShadowCounterMax && |h| >= 2 && h[|h| - 2].1 {
        CountWraps(n');
        assert EventPCs(h)[kShadowCounterMax] == EventPCs(h')[kShadowCounterMax];
      }
    }
  }

  // ---------------------------------------------------------------------
  // The run-time state

  class Runtime {
    /** The global `DstuneIsInitialized`. */
    var DstuneIsInitialized: bool
    /** The shadow byte of every application address (absent = zero). */
    var Shadow: ShadowMap
    /** The write-after-write table, `WAWHashMap`. */
    var WAWHashMap: Table

    /** The detector's state, as the step functions see it. */
    function Snapshot(): State
      reads this
    {
      State(Shadow, WAWHashMap)
    }

    /** Program start: not initialised, all shadow zero, no entries. */
    constructor()
      ensures !DstuneIsInitialized && Shadow == map[] && WAWHashMap == map[]
    {
      DstuneIsInitialized := false;
      Shadow := map[];
      WAWHashMap := map[];
    }

    /** processWAWInstance(PC, Addr, the shadow byte of Addr). */
    method ProcessWAWInstance(PC: uptr, Addr: uptr)
      modifies this
      ensures Snapshot() == WAWInstance(old(Snapshot()), PC, Addr)
      ensures DstuneIsInitialized == old(DstuneIsInitialized)
    {
      var b := ShadowOf(Shadow, Addr);
      if b.Counter != kShadowCounterMax {
        Shadow := Shadow[Addr := b.(Counter := b.Counter + 1)];
        return;
      }
      if Addr in WAWHashMap {
        var h := WAWHashMap[Addr];
        WAWHashMap := WAWHashMap[Addr := h.(Count := Wrap(h.Count + 1))];
      } else {
        WAWHashMap := WAWHashMap[Addr := WriteAfterWrite(kShadowCounterMax + 1, 0, PC)];
        Shadow := Shadow[Addr := b.(ContextRequested := 1)];
      }
    }

    /** setWAWFirstPC(PC, Addr). */
    method SetWAWFirstPC(PC: uptr, Addr: uptr)
      modifies this
      ensures WAWHashMap == SetFirstPC(old(WAWHashMap), PC, Addr)
      ensures Shadow == old(Shadow) && DstuneIsInitialized == old(DstuneIsInitialized)
    {
      if Addr in WAWHashMap {
        WAWHashMap := WAWHashMap[Addr := WAWHashMap[Addr].(FirstPC := PC)];
      }
    }

    /**
     * processRangeAccess: the bytes Addr, Addr + 1, ... Addr + Size - 1, in
     * that order, each through the mode state machine; a Size below one
     * does nothing.
     */
    method ProcessRangeAccess(PC: uptr, Addr: uptr, Size: int32, IsWrite: bool)
      modifies this
      ensures Snapshot() == Processed(old(Snapshot()), PC, Addr, if Size < 0 then 0 else Size, IsWrite)
      ensures DstuneIsInitialized == old(DstuneIsInitialized)
    {
      var addr := Addr;
      var i: int32 := 0;
      while i < Size
        invariant 0 <= i <= (if Size < 0 then 0 else Size)
        invariant addr == Wrap(Addr + i)
        invariant Snapshot() == Processed(old(Snapshot()), PC, Addr, i, IsWrite)
        invariant DstuneIsInitialized == old(DstuneIsInitialized)
      {
        AccessByte(PC, addr, IsWrite);
        addr := Wrap(addr as int + 1);
        i := i + 1;
      }
    }

    /** The body of processRangeAccess's loop: the byte at addr through the mode state machine. */
    method AccessByte(PC: uptr, addr: uptr, IsWrite: bool)
      modifies this
      ensures Snapshot() == Step(old(Snapshot()), PC, addr, IsWrite)
      ensures DstuneIsInitialized == old(DstuneIsInitialized)
    {
      var b := ShadowOf(Shadow, addr);
      if !IsWrite {
        Shadow := Shadow[addr := b.(Mode := ModeRead)];
      } else if b.Mode == ModeRead {
        Shadow := Shadow[addr := b.(Mode := ModeWrittenOnce)];
        if b.ContextRequested != 0 {
          SetWAWFirstPC(PC, addr);
          Shadow := Shadow[addr := Shadow[addr].(ContextRequested := 0)];
        }
      } else {
        if b.Mode == ModeWrittenOnce {
          Shadow := Shadow[addr := b.(Mode := ModeWrittenAgain)];
        }
        ProcessWAWInstance(PC, addr);
      }
    }

    /** processMemAccess: an access of 1 << SizeLog bytes. */
    method ProcessMemAccess(PC: uptr, Addr: uptr, SizeLog: int32, IsWrite: bool)
      requires 0 <= SizeLog <= 30
      modifies this
      ensures Snapshot() == Processed(old(Snapshot()), PC, Addr, Shl1(SizeLog), IsWrite)
      ensures DstuneIsInitialized == old(DstuneIsInitialized)
    {
      ProcessRangeAccess(PC, Addr, Shl1(SizeLog) as int32, IsWrite);
    }

    /** processUnalignedAccess: the same as a range access. */
    method ProcessUnalignedAccess(PC: uptr, Addr: uptr, Size: int32, IsWrite: bool)
      modifies this
      ensures Snapshot() == Processed(old(Snapshot()), PC, Addr, if Size < 0 then 0 else Size, IsWrite)
      ensures DstuneIsInitialized == old(DstuneIsInitialized)
    {
      ProcessRangeAccess(PC, Addr, Size, IsWrite);
    }

    /**
     * initializeLibrary: only the first call does anything; it sets the
     * flag and creates an empty table.  Flags, interceptors and the shadow
     * mapping are not modelled.
     */
    method InitializeLibrary()
      modifies this
      ensures DstuneIsInitialized
      ensures old(DstuneIsInitialized) ==> WAWHashMap == old(WAWHashMap)
      ensures !old(DstuneIsInitialized) ==> WAWHashMap == map[]
      ensures Shadow == old(Shadow)
    {
      if DstuneIsInitialized {
        return;
      }
      DstuneIsInitialized := true;
      WAWHashMap := map[];
    }

    /** finalizeLibrary: reports the table (not modelled) and returns 0, changing nothing. */
    method FinalizeLibrary() returns (r: int32)
      ensures r == 0
    {
      r := 0;
    }
  }
}
