/** safe-malloc-free.c: the two slot tables, and what they and the memory of large blocks look like in
    terms of the live pointers. */
module SlotTables {
  import opened Bytes
  import opened Memory

  const MEM_BLOCKS_MAX_LEN: nat := 64
  const SLOT_LEN: nat := 11            // sizeof(memblock_t), packed
  const VAL_OFFSET: nat := 2           // offset of val in it
  const WORD: nat := 8                 // sizeof(size_t)
  const HEAD: nat := 5                 // canary and length in front of a large payload
  const MAX_BUF_LEN: nat := 65535
  const UINTPTR_MAX: nat := 0xFFFF_FFFF_FFFF_FFFF

  /** memblock_t. */
  datatype Slot = Slot(res0: byte, notUsed: bool, bytes: nat, val: seq<byte>, res1: byte)

  const ONES: seq<byte> := [255, 255, 255, 255, 255, 255, 255, 255]

  /** A slot filled with ZERO_BYTE, by init or by a free. */
  const FREE := Slot(ZERO_BYTE, true, 127, ONES, ZERO_BYTE)

  /** A slot claimed for a large block that the system then did not deliver. */
  const LEAKED := Slot(ZERO_BYTE, false, 0, ONES, ZERO_BYTE)

  ghost predicate SmallSlot(s: Slot, l: nat) {
    && s.res0 == MAGIC_BYTE && !s.notUsed && s.bytes == l && s.res1 == MAGIC_BYTE
    && 0 < l <= WORD && |s.val| == WORD
  }

  ghost predicate LargeSlot(s: Slot, p: nat) {
    && s.res0 == MAGIC_BYTE && !s.notUsed && s.bytes == 0 && s.res1 == MAGIC_BYTE
    && p < U64 && s.val == ToLE(p, WORD)
  }

  function Ptr(base: nat, i: nat): nat {
    base + SLOT_LEN * i + VAL_OFFSET
  }

  function TableEnd(base: nat): nat {
    base + SLOT_LEN * MEM_BLOCKS_MAX_LEN
  }

  /** The test that sends a pointer to the small table. */
  predicate InTable(base: nat, ptr: nat) {
    base < ptr < TableEnd(base)
  }

  /** The bytes of a large block with payload at p. */
  ghost predicate Block(mem: seq<byte>, p: nat, l: nat) {
    && HEAD <= p && p + l < |mem|
    && WORD < l <= MAX_BUF_LEN
    && mem[p - 5] == MAGIC_BYTE && FromLE(mem[p - 4..p]) == l && mem[p + l] == MAGIC_BYTE
  }

  ghost predicate SmallTable(islots: seq<Slot>, base: nat, live: Live) {
    && |islots| == MEM_BLOCKS_MAX_LEN && 0 < base
    && (forall i :: 0 <= i < MEM_BLOCKS_MAX_LEN ==>
         if Ptr(base, i) in live then SmallSlot(islots[i], live[Ptr(base, i)]) else islots[i] == FREE)
    && (forall p :: p in live && InTable(base, p) ==>
         base + VAL_OFFSET <= p && (p - VAL_OFFSET - base) % SLOT_LEN == 0)
  }

  /** Each slot of the large table is free, leaked, or the home of one large live pointer. */
  ghost predicate LargeTable(bslots: seq<Slot>, base: nat, live: Live, home: map<nat, nat>) {
    && |bslots| == MEM_BLOCKS_MAX_LEN
    && (forall p :: p in live && !InTable(base, p) ==>
         p in home && home[p] < MEM_BLOCKS_MAX_LEN && LargeSlot(bslots[home[p]], p))
    && (forall j :: 0 <= j < MEM_BLOCKS_MAX_LEN && bslots[j] != FREE && bslots[j] != LEAKED ==>
         exists p :: p in live && !InTable(base, p) && p in home && home[p] == j)
    && (forall p :: p in live && p in home ==> !InTable(base, p))
  }

  ghost predicate Blocks(mem: seq<byte>, base: nat, live: Live) {
    && |mem| + WORD <= U64
    && (forall p :: p in live && !InTable(base, p) ==> Block(mem, p, live[p]))
    && (forall p, q :: p in live && q in live && p < q && !InTable(base, p) && !InTable(base, q) ==>
         p + live[p] + 1 + HEAD <= q)
  }

  ghost predicate Layout(islots: seq<Slot>, bslots: seq<Slot>, mem: seq<byte>, base: nat, live: Live,
                         home: map<nat, nat>) {
    && SmallTable(islots, base, live)
    && LargeTable(bslots, base, live, home)
    && Blocks(mem, base, live)
  }

  // ---------------------------------------------------------------- lookups

  /** The first slot of the large table that holds ptr. */
  function FirstHolding(bslots: seq<Slot>, ptr: nat, from: nat): (j: nat)
    requires from <= |bslots|
    ensures from <= j <= |bslots|
    ensures j < |bslots| ==> FromLE(bslots[j].val) == ptr
    ensures forall k :: from <= k < j ==> FromLE(bslots[k].val) != ptr
    decreases |bslots| - from
  {
    if from == |bslots| || FromLE(bslots[from].val) == ptr then from else FirstHolding(bslots, ptr, from + 1)
  }

  predicate SlotChecks(s: Slot) {
    !s.notUsed && s.bytes == 0 && s.res0 == MAGIC_BYTE && s.res1 == MAGIC_BYTE
  }

  lemma OnesValue()
    ensures FromLE(ONES) == UINTPTR_MAX
  {
    assert ONES[1..] == [255, 255, 255, 255, 255, 255, 255];
    assert ONES[1..][1..] == [255, 255, 255, 255, 255, 255];
    assert ONES[1..][1..][1..] == [255, 255, 255, 255, 255];
    assert [255, 255, 255, 255, 255][1..] == [255, 255, 255, 255];
    assert [255, 255, 255, 255][1..] == [255, 255, 255];
    assert [255, 255, 255][1..] == [255, 255];
    assert [255, 255][1..] == [255];
    assert FromLE([255]) == 255;
  }

  lemma UnusedIsFree(bslots: seq<Slot>, base: nat, live: Live, home: map<nat, nat>, j: nat)
    requires LargeTable(bslots, base, live, home) && j < MEM_BLOCKS_MAX_LEN
    ensures bslots[j].notUsed <==> bslots[j] == FREE
  {
    if bslots[j] != FREE && bslots[j] != LEAKED {
      var q :| q in live && !InTable(base, q) && q in home && home[q] == j;
      assert LargeSlot(bslots[j], q);
    }
  }

  /** Leaked slots stay leaked. */
  ghost predicate LeaksStay(b: seq<Slot>, b': seq<Slot>) {
    |b| == |b'| && forall k :: 0 <= k < |b| && b[k] == LEAKED ==> b'[k] == LEAKED
  }

  /** The pointer is that of the first slot of the small table that is not the home of a live one. */
  ghost predicate FirstFit(base: nat, ptrs: set<nat>, p: nat) {
    exists i :: 0 <= i < MEM_BLOCKS_MAX_LEN && p == Ptr(base, i) && UsedBefore(base, ptrs, i)
  }

  ghost predicate UsedBefore(base: nat, ptrs: set<nat>, i: nat) {
    forall k :: 0 <= k < i ==> Ptr(base, k) in ptrs
  }

  // ---------------------------------------------------------------- counting slots

  /** The pointers that are not slots of the small table. */
  function Larges(base: nat, ptrs: set<nat>): set<nat> {
    set p | p in ptrs && !InTable(base, p)
  }

  /** Each slot of the large table is the home of one large pointer, leaked, or free. */
  ghost predicate Counted(bslots: seq<Slot>, base: nat, live: Live) {
    |Larges(base, live.Keys)| + multiset(bslots)[LEAKED] + multiset(bslots)[FREE] == MEM_BLOCKS_MAX_LEN
  }

  lemma SlotReplaced(b: seq<Slot>, j: nat, x: Slot)
    requires j < |b|
    ensures multiset(b[j := x]) == multiset(b) - multiset{b[j]} + multiset{x}
  {
  }

  lemma AllFree(b: seq<Slot>)
    requires forall k :: 0 <= k < |b| ==> b[k] == FREE
    ensures multiset(b)[FREE] == |b| && multiset(b)[LEAKED] == 0
  {
    if b != [] {
      AllFree(b[..|b| - 1]);
      assert b == b[..|b| - 1] + [FREE];
    }
  }

  /** The large table has no free slot exactly when live pointers and leaked slots fill it. */
  lemma TableFull(bslots: seq<Slot>, base: nat, live: Live, home: map<nat, nat>)
    requires LargeTable(bslots, base, live, home) && Counted(bslots, base, live)
    ensures (forall k :: 0 <= k < MEM_BLOCKS_MAX_LEN ==> !bslots[k].notUsed)
      <==> |Larges(base, live.Keys)| + multiset(bslots)[LEAKED] == MEM_BLOCKS_MAX_LEN
  {
    forall k | 0 <= k < MEM_BLOCKS_MAX_LEN
      ensures bslots[k].notUsed <==> bslots[k] == FREE
    {
      UnusedIsFree(bslots, base, live, home, k);
    }
    assert FREE in multiset(bslots) <==> FREE in bslots;
  }

  /** A slot of the large table holds a pointer other than UINTPTR_MAX only when it is that live pointer's
      home. */
  lemma HolderIsHome(bslots: seq<Slot>, mem: seq<byte>, base: nat, live: Live, home: map<nat, nat>, j: nat)
    requires LargeTable(bslots, base, live, home) && Blocks(mem, base, live) && j < |bslots|
    ensures var ptr := FromLE(bslots[j].val);
      if ptr == UINTPTR_MAX then !SlotChecks(bslots[j]) && (bslots[j] == FREE || bslots[j] == LEAKED)
      else SlotChecks(bslots[j]) && ptr in live && !InTable(base, ptr) && home[ptr] == j
  {
    OnesValue();
    if bslots[j] != FREE && bslots[j] != LEAKED {
      var p :| p in live && !InTable(base, p) && p in home && home[p] == j;
      assert LargeSlot(bslots[j], p) && Block(mem, p, live[p]);
      LoadStoredWidths(p);
    }
  }

  /** Skipping the slot checks on a remembered slot that holds the pointer is right exactly for pointers
      other than UINTPTR_MAX, the value that free and leaked slots hold. */
  lemma CacheHitPassesChecks(bslots: seq<Slot>, mem: seq<byte>, base: nat, live: Live, home: map<nat, nat>,
                             j: nat, ptr: nat)
    requires LargeTable(bslots, base, live, home) && Blocks(mem, base, live)
    requires j < |bslots| && FromLE(bslots[j].val) == ptr
    ensures SlotChecks(bslots[j]) <==> ptr != UINTPTR_MAX
  {
    HolderIsHome(bslots, mem, base, live, home, j);
  }

  /** A search for a pointer other than UINTPTR_MAX finds the home of a live pointer, or nothing. */
  lemma SearchFindsHome(bslots: seq<Slot>, mem: seq<byte>, base: nat, live: Live, home: map<nat, nat>, ptr: nat)
    requires LargeTable(bslots, base, live, home) && Blocks(mem, base, live)
    requires ptr != UINTPTR_MAX && !InTable(base, ptr)
    ensures var j := FirstHolding(bslots, ptr, 0);
      if ptr in live then ptr in home && j == home[ptr] && j < |bslots| else j == |bslots|
  {
    var j := FirstHolding(bslots, ptr, 0);
    if j < |bslots| {
      HolderIsHome(bslots, mem, base, live, home, j);
    } else if ptr in live {
      assert LargeSlot(bslots[home[ptr]], ptr) && Block(mem, ptr, live[ptr]);
      LoadStoredWidths(ptr);
    }
  }
}
