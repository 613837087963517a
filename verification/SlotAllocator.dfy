/** safe-malloc-free.c: the allocator over two tables of 64 slots, with exact pointer validation and a
    remembered index in xptr_valid. Small payloads live in the slots, large ones in memory obtained from
    the system allocator; an address is an index into memory, or lies in the small table. */
module SlotAllocator {
  import opened Bytes
  import opened Memory
  import opened SlotTables
  import opened SlotSteps

  // ---------------------------------------------------------------- the answer of a fresh search

  /** The guard checks on the block that a slot of the large table points to. */
  predicate BlockChecks(mem: seq<byte>, ptr: nat, need: nat) {
    && HEAD <= ptr <= |mem|
    && var l := FromLE(mem[ptr - 4..ptr]);
       && WORD < l <= MAX_BUF_LEN && ptr + l < |mem|
       && mem[ptr - 5] == MAGIC_BYTE && mem[ptr + l] == MAGIC_BYTE
       && need <= l
  }

  predicate SmallChecks(islots: seq<Slot>, base: nat, ptr: nat, need: nat)
    requires |islots| == MEM_BLOCKS_MAX_LEN && InTable(base, ptr)
  {
    var i := (ptr - base) / SLOT_LEN;
    !islots[i].notUsed && ptr == Ptr(base, i) && 0 < islots[i].bytes <= WORD && need <= islots[i].bytes
  }

  /** xptr_valid without a memory: a linear search from slot 0, with all checks, on every call. */
  predicate FreshSearch(islots: seq<Slot>, bslots: seq<Slot>, mem: seq<byte>, base: nat, ptr: nat, need: nat)
    requires |islots| == |bslots| == MEM_BLOCKS_MAX_LEN
  {
    && ptr != 0
    && if InTable(base, ptr) then SmallChecks(islots, base, ptr, need)
       else
         var j := FirstHolding(bslots, ptr, 0);
         j < MEM_BLOCKS_MAX_LEN && SlotChecks(bslots[j]) && BlockChecks(mem, ptr, need)
  }

  /** What _xfree accepts in the small table, whatever the slots hold. */
  predicate SmallFrees(islots: seq<Slot>, base: nat, ptr: nat)
    requires |islots| == MEM_BLOCKS_MAX_LEN && InTable(base, ptr)
  {
    var i := (ptr - base) / SLOT_LEN;
    && !islots[i].notUsed && ptr == Ptr(base, i) && 0 < islots[i].bytes <= WORD
    && islots[i].res0 == MAGIC_BYTE && islots[i].res1 == MAGIC_BYTE
  }

  /** The first slot in use that holds ptr. */
  function FirstUsed(bslots: seq<Slot>, ptr: nat, from: nat): (j: nat)
    requires from <= |bslots|
    ensures from <= j <= |bslots|
    ensures j < |bslots| ==> !bslots[j].notUsed && FromLE(bslots[j].val) == ptr
    ensures forall k :: from <= k < j ==> bslots[k].notUsed || FromLE(bslots[k].val) != ptr
    decreases |bslots| - from
  {
    if from == |bslots| || (!bslots[from].notUsed && FromLE(bslots[from].val) == ptr) then from
    else FirstUsed(bslots, ptr, from + 1)
  }

  /** What _xfree accepts otherwise, whatever slots and memory hold. */
  predicate LargeFrees(bslots: seq<Slot>, mem: seq<byte>, ptr: nat) {
    var j := FirstUsed(bslots, ptr, 0);
    j < |bslots| && SlotChecks(bslots[j]) && BlockChecks(mem, ptr, 0)
  }

  /** What the guards are for: in tables as they should be, when a guard byte of a live block or one of its
      slot has been changed, _xfree refuses the pointer. */
  lemma LargeDamageDetected(bslots: seq<Slot>, mem: seq<byte>, mem': seq<byte>, base: nat, live: Live,
                            home: map<nat, nat>, ptr: nat, x: Slot)
    requires LargeTable(bslots, base, live, home) && Blocks(mem, base, live)
    requires ptr in live && !InTable(base, ptr) && ptr in home && home[ptr] < |bslots|
    requires |mem'| == |mem| && mem'[ptr - 4..ptr] == mem[ptr - 4..ptr] && x.val == bslots[home[ptr]].val
    requires mem'[ptr - 5] != mem[ptr - 5] || mem'[ptr + live[ptr]] != mem[ptr + live[ptr]]
      || x.res0 != MAGIC_BYTE || x.res1 != MAGIC_BYTE || x.bytes != 0 || x.notUsed
    ensures !LargeFrees(bslots[home[ptr] := x], mem', ptr)
  {
    var j := home[ptr];
    LargeLive(bslots, mem, base, live, home, ptr);
    HomeHolds(bslots, base, live, home, ptr);
    var bslots' := bslots[j := x];
    var i := FirstUsed(bslots', ptr, 0);
    if i < |bslots| && i != j {
      HolderIsHome(bslots, mem, base, live, home, i);
      BlockBelowTop(mem, base, live, ptr);
    }
  }

  lemma BlockBelowTop(mem: seq<byte>, base: nat, live: Live, ptr: nat)
    requires Blocks(mem, base, live) && ptr in live && !InTable(base, ptr)
    ensures ptr != UINTPTR_MAX
  {
    assert Block(mem, ptr, live[ptr]);
  }

  /** A pointer into the small table passes the checks exactly when it is live. */
  lemma SmallExact(islots: seq<Slot>, base: nat, live: Live, ptr: nat)
    requires SmallTable(islots, base, live) && InTable(base, ptr)
    ensures var i := (ptr - base) / SLOT_LEN;
      && i < MEM_BLOCKS_MAX_LEN
      && (ptr in live <==> !islots[i].notUsed && ptr == Ptr(base, i))
      && (ptr in live ==> SmallSlot(islots[i], live[ptr]))
  {
    var i := (ptr - base) / SLOT_LEN;
    if ptr in live {
      SmallLive(islots, base, live, ptr);
    }
    assert if Ptr(base, i) in live then SmallSlot(islots[i], live[Ptr(base, i)]) else islots[i] == FREE;
  }

  lemma LargeLive(bslots: seq<Slot>, mem: seq<byte>, base: nat, live: Live, home: map<nat, nat>, ptr: nat)
    requires LargeTable(bslots, base, live, home) && Blocks(mem, base, live) && ptr in live && !InTable(base, ptr)
    ensures ptr in home && home[ptr] < |bslots| && SlotChecks(bslots[home[ptr]])
    ensures HEAD <= ptr && ptr + live[ptr] < |mem| && FromLE(mem[ptr - 4..ptr]) == live[ptr]
    ensures forall need :: BlockChecks(mem, ptr, need) <==> need <= live[ptr]
  {
    assert LargeSlot(bslots[home[ptr]], ptr) && Block(mem, ptr, live[ptr]);
  }

  /** A fresh search accepts exactly the live pointers, for accesses within their size. */
  lemma FreshSearchExact(islots: seq<Slot>, bslots: seq<Slot>, mem: seq<byte>, base: nat, live: Live,
                         home: map<nat, nat>, ptr: nat, need: nat)
    requires Layout(islots, bslots, mem, base, live, home)
    ensures FreshSearch(islots, bslots, mem, base, ptr, need) <==> ptr in live && need <= live[ptr]
  {
    if InTable(base, ptr) {
      SmallExact(islots, base, live, ptr);
    } else if ptr == UINTPTR_MAX {
      if ptr in live {
        LargeLive(bslots, mem, base, live, home, ptr);
      }
      var j := FirstHolding(bslots, ptr, 0);
      if j < |bslots| {
        HolderIsHome(bslots, mem, base, live, home, j);
      }
    } else {
      SearchFindsHome(bslots, mem, base, live, home, ptr);
      if ptr in live {
        LargeLive(bslots, mem, base, live, home, ptr);
      }
    }
  }

  lemma MemoryBound(islots: seq<Slot>, bslots: seq<Slot>, mem: seq<byte>, base: nat, live: Live, home: map<nat, nat>)
    requires Layout(islots, bslots, mem, base, live, home)
    ensures |mem| + WORD <= U64
  {
  }

  lemma HomeHolds(bslots: seq<Slot>, base: nat, live: Live, home: map<nat, nat>, ptr: nat)
    requires LargeTable(bslots, base, live, home) && ptr in live && !InTable(base, ptr)
    ensures ptr in home && home[ptr] < |bslots| && LargeSlot(bslots[home[ptr]], ptr)
  {
  }

  lemma FreshSearchOfNull(islots: seq<Slot>, bslots: seq<Slot>, mem: seq<byte>, base: nat, need: nat)
    requires |islots| == |bslots| == MEM_BLOCKS_MAX_LEN
    ensures !FreshSearch(islots, bslots, mem, base, 0, need)
  {
  }

  /** What the allocator stands for: the map from live pointers to payloads, and how many slots of the
      large table are lost. */
  datatype Plain = Plain(m: map<nat, seq<byte>>, leaks: nat)

  /** What _malloc comes to: a pointer, NULL being 0, or a write behind the end of its table. */
  datatype Handed = Handed(ptr: nat) | Overrun

  class Allocator {
    const ilist: array<Slot>     // imemblock_list
    const blist: array<Slot>     // bmemblock_list
    const base: nat              // address of imemblock_list
    const mem: array<byte>
    var cache: nat               // the static index of xptr_valid
    ghost var live: Live
    ghost var home: map<nat, nat>

    ghost predicate Valid()
      reads this, ilist, blist, mem
    {
      && ilist != blist && ilist.Length == blist.Length == MEM_BLOCKS_MAX_LEN
      && Layout(ilist[..], blist[..], mem[..], base, live, home)
      && Counted(blist[..], base, live)
      && forall p :: p in home ==> !InTable(base, p)
    }

    /** The plain map from live pointers to payloads. */
    ghost function Map(): map<nat, seq<byte>>
      reads this, ilist, mem
    {
      View(ilist[..], mem[..], base, live)
    }

    /** How many slots of the large table are claimed for nothing. */
    ghost function Leaks(): nat
      reads this, blist
    {
      multiset(blist[..])[LEAKED]
    }

    ghost function State(): Plain
      reads this, ilist, blist, mem
    {
      Plain(Map(), Leaks())
    }

    /** The remembered slot holds UINTPTR_MAX, as free and leaked slots do. */
    ghost predicate HitsMax()
      reads this, blist
    {
      cache < blist.Length && (blist[cache] == FREE || blist[cache] == LEAKED)
    }

    /** init, on tables at address b and some memory. */
    constructor (islots: array<Slot>, bslots: array<Slot>, b: nat, space: array<byte>)
      requires islots != bslots && islots.Length == bslots.Length == MEM_BLOCKS_MAX_LEN
      requires 0 < b && space.Length + WORD <= U64
      modifies islots, bslots
      ensures Valid() && live == map[] && State() == Plain(map[], 0) && !HitsMax()
      ensures ilist == islots && blist == bslots && base == b && mem == space
    {
      ilist, blist, base, mem := islots, bslots, b, space;
      cache := MEM_BLOCKS_MAX_LEN;
      live, home := map[], map[];
      new;
      for i := 0 to MEM_BLOCKS_MAX_LEN
        modifies ilist, blist
        invariant forall k :: 0 <= k < i ==> ilist[k] == FREE && blist[k] == FREE
      {
        ilist[i], blist[i] := FREE, FREE;
      }
      AllFree(blist[..]);
      assert Larges(base, live.Keys) == {};
    }

    /** The search loop of _malloc: the first slot that is not in use, or the index behind the table. The
        assert is the loop's body and never fires, so a full table is not noticed. */
    method FirstFree(list: array<Slot>) returns (i: nat)
      requires list.Length == MEM_BLOCKS_MAX_LEN
      ensures i <= MEM_BLOCKS_MAX_LEN && (i < MEM_BLOCKS_MAX_LEN ==> list[i].notUsed)
      ensures forall k :: 0 <= k < i ==> !list[k].notUsed
    {
      i := 0;
      while i < MEM_BLOCKS_MAX_LEN && !list[i].notUsed
        invariant i <= MEM_BLOCKS_MAX_LEN
        invariant forall k :: 0 <= k < i ==> !list[k].notUsed
      {
        assert i < MEM_BLOCKS_MAX_LEN;
        i := i + 1;
      }
    }

    /** Every slot of the small table is the home of a live pointer. */
    ghost predicate SmallFull()
      reads this
    {
      forall i :: 0 <= i < MEM_BLOCKS_MAX_LEN ==> Ptr(base, i) in live
    }

    /** A slot of the small table is unused exactly when its pointer is not live. */
    lemma SmallUnused()
      requires Valid()
      ensures forall k :: 0 <= k < MEM_BLOCKS_MAX_LEN ==> (ilist[k].notUsed <==> Ptr(base, k) !in live)
    {
      forall k | 0 <= k < MEM_BLOCKS_MAX_LEN
        ensures ilist[k].notUsed <==> Ptr(base, k) !in live
      {
        PtrInTable(base, k);
        SmallExact(ilist[..], base, live, Ptr(base, k));
      }
    }

    /** The small path of _malloc: first fit, or a write behind the table when every slot is in use. */
    method MallocSmall(l: nat) returns (r: Handed)
      requires Valid() && 0 < l <= WORD
      modifies this, ilist
      ensures Valid() && cache == old(cache)
      ensures r.Overrun? <==> old(SmallFull())
      ensures r.Overrun? ==> live == old(live) && Map() == old(Map())
      ensures r.Handed? ==>
        && FirstFit(base, old(live).Keys, r.ptr)
        && r.ptr !in old(live) && live == old(live)[r.ptr := l] && Map() == old(Map())[r.ptr := Fill(l)]
    {
      hide View, LargeTable, Blocks, Counted, Fill;
      SmallUnused();
      var i := FirstFree(ilist);
      if i == MEM_BLOCKS_MAX_LEN {
        return Overrun;            // the stores would go to imemblock_list[64]
      }
      ghost var x := Slot(MAGIC_BYTE, false, l, ilist[i].val, MAGIC_BYTE);
      var p := Ptr(base, i);
      PtrInTable(base, i);
      FreeSmallSlot(i, l);
      SmallChanges(ilist[..], mem[..], base, live, live[p := l], i, x);
      SmallKeepsLarge(blist[..], mem[..], base, live, live[p := l], home, p);
      CountedSmall(blist[..], base, live, live[p := l], p);
      ilist[i] := ilist[i].(notUsed := false);
      ilist[i] := ilist[i].(bytes := l);
      ilist[i] := ilist[i].(res0 := MAGIC_BYTE);
      ilist[i] := ilist[i].(res1 := MAGIC_BYTE);
      assert ilist[..] == old(ilist[..])[i := x];
      live := live[p := l];
      r := Handed(p);
    }

    lemma FreeSmallSlot(i: nat, l: nat)
      requires Valid() && i < MEM_BLOCKS_MAX_LEN && Ptr(base, i) !in live && l <= WORD
      ensures ilist[i] == FREE && ilist[i].val[..l] == Fill(l) && |ilist[i].val| == WORD
    {
    }

    /** The large path of _malloc up to the call of the system allocator: the first free slot is claimed, or
        the stores go behind the table. */
    method ClaimSlot() returns (i: nat)
      requires Valid()
      modifies blist
      ensures Valid() && Map() == old(Map())
      ensures i == MEM_BLOCKS_MAX_LEN <==> |Larges(base, live.Keys)| + old(Leaks()) == MEM_BLOCKS_MAX_LEN
      ensures i == MEM_BLOCKS_MAX_LEN ==> blist[..] == old(blist[..])
      ensures i < MEM_BLOCKS_MAX_LEN ==>
        && old(blist[i]) == FREE && blist[..] == old(blist[..])[i := LEAKED] && Leaks() == old(Leaks()) + 1
      ensures i <= MEM_BLOCKS_MAX_LEN && forall k :: 0 <= k < i ==> old(blist[k]) != FREE
    {
      i := FirstFree(blist);
      hide View, SmallTable, LargeTable, Blocks, Counted;
      TableFull(blist[..], base, live, home);
      if i == MEM_BLOCKS_MAX_LEN {
        return;
      }
      UnusedIsFree(blist[..], base, live, home, i);
      LeakedLayout(ilist[..], blist[..], mem[..], base, live, home, i);
      CountedLeak(blist[..], base, live, i);
      blist[i] := blist[i].(notUsed := false);
      blist[i] := blist[i].(bytes := 0);
      assert blist[..] == old(blist[..])[i := LEAKED];
    }

    /** The rest of it: slot i becomes the home of the block at sys, whose guards are stored. */
    method Install(i: nat, l: nat, sys: nat) returns (r: nat)
      requires Valid() && WORD < l <= MAX_BUF_LEN
      requires i < MEM_BLOCKS_MAX_LEN && blist[i] == LEAKED
      requires sys != 0 && FreshRegion(mem[..], base, live, sys, HEAD + l + 1)
      modifies this`live, this`home, blist, mem
      ensures Valid()
      ensures r == sys + HEAD && r !in old(live) && r + l < mem.Length && live == old(live)[r := l]
      ensures Map() == old(Map())[r := old(mem[r..r + l])]
      ensures Leaks() + 1 == old(Leaks()) && forall k :: 0 <= k < blist.Length && k != i ==> blist[k] == old(blist[k])
    {
      hide Layout, View, Guarded, Counted;
      r := sys + HEAD;
      ghost var x := Slot(MAGIC_BYTE, false, 0, ToLE(r, WORD), MAGIC_BYTE);
      MemoryBound(ilist[..], blist[..], mem[..], base, live, home);
      LargeTaken(ilist[..], blist[..], mem[..], base, live, home, i, r, l, x);
      CountedTaken(blist[..], base, live, i, r, l, x);
      blist[i] := blist[i].(val := ToLE(r, WORD));
      blist[i] := blist[i].(res0 := MAGIC_BYTE);
      blist[i] := blist[i].(res1 := MAGIC_BYTE);
      assert blist[..] == old(blist[..])[i := x];
      PutGuards(r, l);
      live, home := live[r := l], home[r := i];
    }

    /** The large path of _malloc; `sys` is what the system allocator returned. When that is NULL the slot
        stays claimed for nothing. */
    method MallocLarge(l: nat, sys: nat) returns (r: Handed)
      requires Valid() && WORD < l <= MAX_BUF_LEN
      requires sys != 0 ==> FreshRegion(mem[..], base, live, sys, HEAD + l + 1)
      modifies this`live, this`home, blist, mem
      ensures Valid() && LeaksStay(old(blist[..]), blist[..])
      ensures r.Overrun? <==> |Larges(base, old(live).Keys)| + old(Leaks()) == MEM_BLOCKS_MAX_LEN
      ensures r.Overrun? ==> live == old(live) && State() == old(State())
      ensures r.Handed? ==> r.ptr == if sys == 0 then 0 else sys + HEAD
      ensures r == Handed(0) ==> live == old(live) && Map() == old(Map()) && Leaks() == old(Leaks()) + 1
      ensures r.Handed? && r.ptr != 0 ==>
        && r.ptr !in old(live) && r.ptr + l < mem.Length && live == old(live)[r.ptr := l]
        && Map() == old(Map())[r.ptr := old(mem[..])[r.ptr..r.ptr + l]] && Leaks() == old(Leaks())
    {
      hide Layout, View, FreshRegion, Counted;
      var i := ClaimSlot();
      if i == MEM_BLOCKS_MAX_LEN {
        return Overrun;            // the stores would go to bmemblock_list[64]
      }
      assert blist[i] == LEAKED && forall k :: 0 <= k < blist.Length && k != i ==> blist[k] == old(blist[k]);
      if sys == 0 {
        return Handed(0);
      }
      var p := Install(i, l, sys);
      r := Handed(p);
    }

    /** The guard stores of the large path. */
    method PutGuards(p: nat, l: nat)
      requires HEAD <= p && p + l < mem.Length
      modifies mem
      ensures mem[..] == Guarded(old(mem[..]), p, l)
    {
      hide Patch, ToLE;
      Store(mem, p - HEAD, [MAGIC_BYTE]);
      Store(mem, p + l, [MAGIC_BYTE]);
      Store(mem, p - 4, ToLE(l, 4));
    }

    /** The search loop of _xfree, whatever the table holds. */
    method FindUsed(ptr: nat) returns (i: nat)
      requires blist.Length == MEM_BLOCKS_MAX_LEN
      ensures i == FirstUsed(blist[..], ptr, 0)
    {
      i := 0;
      while i < MEM_BLOCKS_MAX_LEN
        invariant i <= MEM_BLOCKS_MAX_LEN
        invariant FirstUsed(blist[..], ptr, 0) == FirstUsed(blist[..], ptr, i)
      {
        if !blist[i].notUsed && FromLE(blist[i].val) == ptr {
          return;
        }
        i := i + 1;
      }
    }

    /** The tests of _xfree on a pointer into the small table, whatever the slots hold. */
    method CheckSmallFree(ptr: nat) returns (ok: bool)
      requires ilist.Length == MEM_BLOCKS_MAX_LEN && InTable(base, ptr)
      ensures ok <==> SmallFrees(ilist[..], base, ptr)
    {
      var i := (ptr - base) / SLOT_LEN;
      if ilist[i].notUsed || ptr != Ptr(base, i) {
        return false;
      }
      if ilist[i].bytes == 0 || ilist[i].bytes > WORD || ilist[i].res0 != MAGIC_BYTE || ilist[i].res1 != MAGIC_BYTE {
        return false;
      }
      ok := true;
    }

    /** The tests of _xfree on any other pointer, whatever slots and memory hold. */
    method CheckLargeFree(ptr: nat) returns (o: Outcome, i: nat)
      requires blist.Length == MEM_BLOCKS_MAX_LEN
      ensures i == FirstUsed(blist[..], ptr, 0)
      ensures o == Accepted <==> LargeFrees(blist[..], mem[..], ptr)
      ensures i == MEM_BLOCKS_MAX_LEN ==> o == Refused
      ensures i < MEM_BLOCKS_MAX_LEN && ptr > mem.Length ==> o == Outside
    {
      hide FirstUsed, FromLE;
      i := FindUsed(ptr);
      assert !LargeFrees(blist[..], mem[..], ptr) <==>
        i == MEM_BLOCKS_MAX_LEN || !SlotChecks(blist[i]) || !BlockChecks(mem[..], ptr, 0);
      if i == MEM_BLOCKS_MAX_LEN {
        return Refused, i;
      }
      hide LargeFrees;
      if ptr < 4 || ptr > mem.Length {
        return Outside, i;
      }
      var l := FromLE(mem[ptr - 4..ptr]);
      if l <= WORD || l > MAX_BUF_LEN || blist[i].bytes != 0 || blist[i].res0 != MAGIC_BYTE
         || blist[i].res1 != MAGIC_BYTE {
        return Refused, i;
      }
      o := CheckGuards(ptr, l);
    }

    /** The tests of the two guard bytes of a block. */
    method CheckGuards(ptr: nat, l: nat) returns (o: Outcome)
      requires 4 <= ptr <= mem.Length
      ensures o == Accepted <==>
        HEAD <= ptr && ptr + l < mem.Length && mem[ptr - 5] == MAGIC_BYTE && mem[ptr + l] == MAGIC_BYTE
      ensures o == Outside ==> ptr < HEAD || mem.Length <= ptr + l
    {
      if ptr < HEAD {
        return Outside;
      }
      if mem[ptr - HEAD] != MAGIC_BYTE {
        return Refused;
      }
      if ptr + l >= mem.Length {
        return Outside;
      }
      o := if mem[ptr + l] == MAGIC_BYTE then Accepted else Refused;
    }

    /** The tests of xptr_valid on the block at ptr, for an access of n bytes, whatever memory holds. */
    method CheckBlock(ptr: nat, n: nat) returns (o: Outcome)
      ensures o == Accepted <==> BlockChecks(mem[..], ptr, n)
      ensures ptr > mem.Length ==> o == Outside
      ensures o == Outside ==> !(HEAD <= ptr <= mem.Length && ptr + FromLE(mem[ptr - 4..ptr]) < mem.Length)
    {
      if ptr < 4 || ptr > mem.Length {
        return Outside;
      }
      var l := FromLE(mem[ptr - 4..ptr]);
      if l <= WORD || l > MAX_BUF_LEN {
        return Refused;
      }
      o := CheckGuards(ptr, l);
      if o == Accepted && n > l {
        o := Refused;
      }
    }

    /** The tests of xptr_valid on a pointer into the small table, whatever the slots hold. */
    method CheckSmallAccess(ptr: nat, n: nat) returns (ok: bool)
      requires ilist.Length == MEM_BLOCKS_MAX_LEN && InTable(base, ptr)
      ensures ok <==> SmallChecks(ilist[..], base, ptr, n)
    {
      var i := (ptr - base) / SLOT_LEN;
      ok := !ilist[i].notUsed && ptr == Ptr(base, i) && ilist[i].bytes > 0 && ilist[i].bytes <= WORD
        && n <= ilist[i].bytes;
    }

    /** In tables as they should be, the search finds the slot of a live pointer, nothing for any other, and
        for UINTPTR_MAX a leaked slot if there is one. */
    lemma UsedFacts(ptr: nat)
      requires Valid() && !InTable(base, ptr)
      ensures var i := FirstUsed(blist[..], ptr, 0);
        && (ptr in live ==> ptr in home && i == home[ptr] && i < MEM_BLOCKS_MAX_LEN)
        && (ptr !in live ==> (i < MEM_BLOCKS_MAX_LEN <==> ptr == UINTPTR_MAX && LEAKED in blist[..]))
    {
      hide SmallTable, LargeTable, Blocks, Counted;
      OnesValue();
      var i := FirstUsed(blist[..], ptr, 0);
      if i < MEM_BLOCKS_MAX_LEN {
        HolderIsHome(blist[..], mem[..], base, live, home, i);
      }
      if ptr in live {
        LargeLive(blist[..], mem[..], base, live, home, ptr);
        MemoryBound(ilist[..], blist[..], mem[..], base, live, home);
        HomeHolds(blist[..], base, live, home, ptr);
        LoadStoredWidths(ptr);
      }
      assert LEAKED in blist[..] && ptr == UINTPTR_MAX ==> i < MEM_BLOCKS_MAX_LEN by {
        if LEAKED in blist[..] {
          var k :| 0 <= k < MEM_BLOCKS_MAX_LEN && blist[..][k] == LEAKED;
          assert !blist[k].notUsed && FromLE(blist[k].val) == UINTPTR_MAX;
        }
      }
    }

    /** _malloc: writes behind a table exactly when the one for this size is full; else NULL exactly for a
        size out of range or when the system has no memory, which costs a slot of the large table. */
    method Malloc(l: nat, sys: nat) returns (r: Handed)
      requires Valid()
      requires WORD < l <= MAX_BUF_LEN && sys != 0 ==> FreshRegion(mem[..], base, live, sys, HEAD + l + 1)
      modifies this, ilist, blist, mem
      ensures Valid() && cache == old(cache) && LeaksStay(old(blist[..]), blist[..])
      ensures r.Overrun? <==>
        if 0 < l <= WORD then old(SmallFull())
        else WORD < l <= MAX_BUF_LEN && |Larges(base, old(live).Keys)| + old(Leaks()) == MEM_BLOCKS_MAX_LEN
      ensures r.Overrun? ==> live == old(live) && State() == old(State())
      ensures r.Handed? ==> (r.ptr == 0 <==> l == 0 || l > MAX_BUF_LEN || (l > WORD && sys == 0))
      ensures r == Handed(0) ==>
        && live == old(live) && Map() == old(Map())
        && Leaks() == old(Leaks()) + if WORD < l <= MAX_BUF_LEN then 1 else 0
      ensures r.Handed? && r.ptr != 0 ==>
        && r.ptr !in old(live) && live == old(live)[r.ptr := l] && Leaks() == old(Leaks())
        && (l > WORD ==> r.ptr == sys + HEAD)
        && r.ptr in Map() && |Map()[r.ptr]| == l && Map() == old(Map())[r.ptr := Map()[r.ptr]]
        && (l <= WORD ==> FirstFit(base, old(live).Keys, r.ptr) && Map()[r.ptr] == Fill(l))
    {
      hide Layout, View, FreshRegion, Counted;
      if l == 0 || l > MAX_BUF_LEN {
        return Handed(0);
      }
      if l <= WORD {
        r := MallocSmall(l);
        assert |Fill(l)| == l;
      } else {
        r := MallocLarge(l, sys);
      }
    }

    /** _xfree of a pointer into the small table. */
    method XFreeSmall(ptr: nat, dry: bool) returns (o: Outcome)
      requires Valid() && InTable(base, ptr)
      modifies this, ilist
      ensures Valid() && cache == old(cache)
      ensures o == if ptr in old(live) then Accepted else Refused
      ensures if o == Accepted && !dry then live == old(live) - {ptr} && Map() == old(Map()) - {ptr}
              else live == old(live) && Map() == old(Map())
    {
      hide View, LargeTable, Blocks, Counted;
      SmallExact(ilist[..], base, live, ptr);
      var i := (ptr - base) / SLOT_LEN;
      var ok := CheckSmallFree(ptr);
      if !ok {
        return Refused;
      }
      if !dry {
        SmallChanges(ilist[..], mem[..], base, live, live - {ptr}, i, FREE);
        SmallKeepsLarge(blist[..], mem[..], base, live, live - {ptr}, home, ptr);
        CountedSmall(blist[..], base, live, live - {ptr}, ptr);
        ilist[i] := FREE;
        assert ilist[..] == old(ilist[..])[i := FREE];
        live := live - {ptr};
      }
      o := Accepted;
    }

    /** _xfree of any other pointer. For UINTPTR_MAX a leaked slot sends it to read behind all memory. */
    method XFreeLarge(ptr: nat, dry: bool) returns (o: Outcome)
      requires Valid() && !InTable(base, ptr)
      modifies this, blist
      ensures Valid() && cache == old(cache) && LeaksStay(old(blist[..]), blist[..])
      ensures o == if ptr in old(live) then Accepted
                   else if ptr == UINTPTR_MAX && old(Leaks()) > 0 then Outside else Refused
      ensures Leaks() == old(Leaks())
      ensures if o == Accepted && !dry then live == old(live) - {ptr} && Map() == old(Map()) - {ptr}
              else live == old(live) && Map() == old(Map())
    {
      hide View, SmallTable, LargeTable, Blocks, Counted;
      UsedFacts(ptr);
      assert LEAKED in blist[..] <==> LEAKED in multiset(blist[..]);
      MemoryBound(ilist[..], blist[..], mem[..], base, live, home);
      if ptr in live {
        LargeLive(blist[..], mem[..], base, live, home, ptr);
      }
      var i;
      o, i := CheckLargeFree(ptr);
      if o != Accepted {
        return;
      }
      if !dry {
        HomeHolds(blist[..], base, live, home, ptr);
        LargeFreed(ilist[..], blist[..], mem[..], base, live, home, ptr);
        CountedFreed(blist[..], base, live, i, ptr);
        blist[i] := FREE;
        assert blist[..] == old(blist[..])[i := FREE];
        live, home := live - {ptr}, home - {ptr};
      }
      o := Accepted;
    }

    /** _xfree: exact acceptance. Every pointer that is not live is refused, wherever it points, but for
        UINTPTR_MAX once a slot has leaked; only an accepted pointer, outside a dry run, changes anything. */
    method XFree(ptr: nat, dry: bool) returns (o: Outcome)
      requires Valid()
      modifies this, ilist, blist
      ensures Valid() && cache == old(cache) && LeaksStay(old(blist[..]), blist[..])
      ensures o == if ptr in old(live) then Accepted
                   else if ptr == UINTPTR_MAX && !InTable(base, ptr) && old(Leaks()) > 0 then Outside
                   else Refused
      ensures if o == Accepted && !dry then live == old(live) - {ptr} && Map() == old(Map()) - {ptr}
              else live == old(live) && Map() == old(Map())
      ensures Leaks() == old(Leaks())
    {
      hide Layout, View, FreshSearch, Counted;
      if ptr == 0 {
        FreshSearchExact(ilist[..], blist[..], mem[..], base, live, home, ptr, 0);
        FreshSearchOfNull(ilist[..], blist[..], mem[..], base, 0);
        return Refused;
      }
      if InTable(base, ptr) {
        o := XFreeSmall(ptr, dry);
      } else {
        o := XFreeLarge(ptr, dry);
      }
    }

    /** The lookup of xptr_valid in the large table: the remembered slot when it holds the pointer, else
        the result of a search, which is remembered. */
    method Lookup(ptr: nat) returns (hit: bool)
      requires Valid()
      modifies this`cache
      ensures hit <==> old(cache) < MEM_BLOCKS_MAX_LEN && FromLE(blist[old(cache)].val) == ptr
      ensures cache == if hit then old(cache) else FirstHolding(blist[..], ptr, 0)
    {
      if cache < MEM_BLOCKS_MAX_LEN && FromLE(blist[cache].val) == ptr {
        return true;
      }
      cache := 0;
      while cache < MEM_BLOCKS_MAX_LEN
        invariant cache <= MEM_BLOCKS_MAX_LEN
        invariant FirstHolding(blist[..], ptr, 0) == FirstHolding(blist[..], ptr, cache)
      {
        if FromLE(blist[cache].val) == ptr {
          break;
        }
        cache := cache + 1;
      }
      hit := false;
    }

    /** xptr_valid: cache transparency. Whatever index was remembered, the answer is that of a fresh linear
        search with all slot checks, except for UINTPTR_MAX when the remembered slot is free or leaked: then
        it reads behind all memory. The sum pos + len is computed in size_t. */
    method XptrValid(ptr: nat, pos: nat, len: nat) returns (o: Outcome)
      requires Valid()
      modifies this`cache
      ensures o == Accepted <==> FreshSearch(ilist[..], blist[..], mem[..], base, ptr, (pos + len) % U64)
      ensures o == Accepted <==> ptr in live && (pos + len) % U64 <= live[ptr]
      ensures o == Outside <==> ptr == UINTPTR_MAX && !InTable(base, ptr) && old(HitsMax())
      ensures o == Outside ==> cache == old(cache) && ptr !in live
      ensures ptr == UINTPTR_MAX && !InTable(base, ptr) && o == Refused ==> cache == FirstHolding(blist[..], ptr, 0)
    {
      hide FreshSearch, SmallTable, LargeTable, Blocks, Allocator.HitsMax, FirstHolding;
      FreshSearchExact(ilist[..], blist[..], mem[..], base, live, home, ptr, (pos + len) % U64);
      if ptr == 0 {
        FreshSearchOfNull(ilist[..], blist[..], mem[..], base, (pos + len) % U64);
        return Refused;
      }
      if InTable(base, ptr) {
        SmallExact(ilist[..], base, live, ptr);
        var ok := CheckSmallAccess(ptr, (pos + len) % U64);
        return if ok then Accepted else Refused;
      }
      o := XptrValidLarge(ptr, (pos + len) % U64);
    }

    /** xptr_valid of a pointer outside the small table, for an access of n bytes. */
    method XptrValidLarge(ptr: nat, n: nat) returns (o: Outcome)
      requires Valid() && !InTable(base, ptr)
      modifies this`cache
      ensures o == Accepted <==> ptr in live && n <= live[ptr]
      ensures o == Outside <==> ptr == UINTPTR_MAX && old(HitsMax())
      ensures o == Outside ==> cache == old(cache) && ptr !in live
      ensures ptr == UINTPTR_MAX && o == Refused ==> cache == FirstHolding(blist[..], ptr, 0)
    {
      hide Layout, Counted, FirstHolding, BlockChecks;
      HolderFacts(ptr);
      var hit := Lookup(ptr);
      if !hit {
        if cache >= MEM_BLOCKS_MAX_LEN || blist[cache].notUsed || blist[cache].bytes != 0
           || blist[cache].res0 != MAGIC_BYTE || blist[cache].res1 != MAGIC_BYTE {
          return Refused;
        }
      }
      o := CheckBlock(ptr, n);
    }

    /** What the remembered slot and the result of a search tell about a pointer outside the small table. */
    lemma HolderFacts(ptr: nat)
      requires Valid() && !InTable(base, ptr)
      ensures ptr in live ==>
        && ptr <= mem.Length && (forall n :: BlockChecks(mem[..], ptr, n) <==> n <= live[ptr])
        && HEAD <= ptr && FromLE(mem[ptr - 4..ptr]) == live[ptr] && ptr + live[ptr] < mem.Length
      ensures ptr == UINTPTR_MAX ==> ptr !in live && ptr > mem.Length
      ensures cache < MEM_BLOCKS_MAX_LEN && FromLE(blist[cache].val) == ptr ==>
        if ptr == UINTPTR_MAX then HitsMax() else ptr in live
      ensures HitsMax() ==> cache < MEM_BLOCKS_MAX_LEN && FromLE(blist[cache].val) == UINTPTR_MAX
      ensures var j := FirstHolding(blist[..], ptr, 0);
        (j < MEM_BLOCKS_MAX_LEN && SlotChecks(blist[j]) <==> ptr in live)
    {
      OnesValue();
      MemoryBound(ilist[..], blist[..], mem[..], base, live, home);
      if ptr in live {
        LargeLive(blist[..], mem[..], base, live, home, ptr);
      }
      if cache < MEM_BLOCKS_MAX_LEN {
        HolderIsHome(blist[..], mem[..], base, live, home, cache);
      }
      var j := FirstHolding(blist[..], ptr, 0);
      if j < MEM_BLOCKS_MAX_LEN {
        HolderIsHome(blist[..], mem[..], base, live, home, j);
      }
      if ptr != UINTPTR_MAX {
        SearchFindsHome(blist[..], mem[..], base, live, home, ptr);
      }
    }

    /** xptr_valid of UINTPTR_MAX, called twice: the first call is refused but remembers a slot that holds
        the value, and the second one skips the checks. It happens unless every slot of the large table is
        the home of a live pointer. */
    method AskTwice(pos: nat, len: nat) returns (first: Outcome, second: Outcome)
      requires Valid() && !InTable(base, UINTPTR_MAX)
      modifies this`cache
      ensures first == if old(HitsMax()) then Outside else Refused
      ensures second == Outside <==> FREE in blist[..] || LEAKED in blist[..]
    {
      hide FreshSearch, Layout, Counted, FirstHolding;
      HolderFacts(UINTPTR_MAX);
      first := XptrValid(UINTPTR_MAX, pos, len);
      MaxHeld();
      assert cache < MEM_BLOCKS_MAX_LEN ==> blist[..][cache] == blist[cache];
      second := XptrValid(UINTPTR_MAX, pos, len);
    }

    /** A search for UINTPTR_MAX ends on a free or leaked slot, if there is one. */
    lemma MaxHeld()
      requires Valid()
      ensures var j := FirstHolding(blist[..], UINTPTR_MAX, 0);
        if j < MEM_BLOCKS_MAX_LEN then blist[j] == FREE || blist[j] == LEAKED
        else FREE !in blist[..] && LEAKED !in blist[..]
    {
      OnesValue();
      var j := FirstHolding(blist[..], UINTPTR_MAX, 0);
      if j < MEM_BLOCKS_MAX_LEN {
        HolderIsHome(blist[..], mem[..], base, live, home, j);
      }
    }

    method WriteSmall(ptr: nat, pos: nat, data: seq<byte>)
      requires Valid() && ptr in live && InTable(base, ptr) && pos + |data| <= live[ptr]
      modifies ilist
      ensures Valid() && ptr in old(Map()) && |old(Map())[ptr]| == live[ptr]
      ensures Map() == old(Map())[ptr := Patch(old(Map())[ptr], pos, data)]
    {
      hide View, Patch, LargeTable, Blocks, Counted;
      SmallLive(ilist[..], base, live, ptr);
      var i := (ptr - VAL_OFFSET - base) / SLOT_LEN;
      SmallWritten(ilist[..], mem[..], base, live, i, pos, data);
      ghost var x := ilist[i].(val := Patch(ilist[i].val, pos, data));
      ilist[i] := ilist[i].(val := Patch(ilist[i].val, pos, data));
      assert ilist[..] == old(ilist[..])[i := x];
    }

    method WriteLarge(ptr: nat, pos: nat, data: seq<byte>)
      requires Valid() && ptr in live && !InTable(base, ptr) && pos + |data| <= live[ptr]
      modifies mem
      ensures Valid() && ptr in old(Map()) && |old(Map())[ptr]| == live[ptr]
      ensures Map() == old(Map())[ptr := Patch(old(Map())[ptr], pos, data)]
    {
      hide Layout, View, Patch;
      LargeWritten(ilist[..], blist[..], mem[..], base, live, home, ptr, pos, data);
      Store(mem, ptr + pos, data);
    }

    /** A write through xptr_assert. Refused is the fatal exit. The sum pos + len is computed in size_t: an
        access whose sum wraps to a value within the size passes and lands outside the block, here without
        effect; and so does one through UINTPTR_MAX that a remembered slot lets pass. */
    method Write(ptr: nat, pos: nat, data: seq<byte>) returns (o: Outcome)
      requires Valid() && pos < U64 && |data| < U64
      modifies this`cache, ilist, mem
      ensures Valid()
      ensures o == Accepted <==> ptr in live && pos + |data| <= live[ptr]
      ensures ptr in live ==> (o == Outside <==> pos + |data| >= U64 && pos + |data| - U64 <= live[ptr])
      ensures ptr !in live ==> (o == Outside <==> ptr == UINTPTR_MAX && !InTable(base, ptr) && old(HitsMax()))
      ensures o != Accepted ==> Map() == old(Map())
      ensures o == Accepted ==>
        && ptr in old(Map()) && |old(Map())[ptr]| == live[ptr]
        && Map() == old(Map())[ptr := Patch(old(Map())[ptr], pos, data)]
    {
      hide Layout, View, FreshSearch;
      if ptr in live {
        PayloadLength(ilist[..], blist[..], mem[..], base, live, home, ptr);
        if !InTable(base, ptr) { HolderFacts(ptr); }
      }
      o := XptrValid(ptr, pos, |data|);
      if o != Accepted {
        return;
      }
      if pos + |data| >= U64 {
        return Outside;
      }
      if InTable(base, ptr) {
        WriteSmall(ptr, pos, data);
      } else {
        WriteLarge(ptr, pos, data);
      }
    }

    /** The bytes a client reads through a live pointer. */
    method Contents(ptr: nat, l: nat) returns (d: seq<byte>)
      requires Valid() && ptr in live && l == live[ptr]
      ensures ptr in Map() && d == Map()[ptr] && |d| == l
    {
      hide SmallTable, LargeTable, Blocks;
      PayloadLength(ilist[..], blist[..], mem[..], base, live, home, ptr);
      if InTable(base, ptr) {
        SmallLive(ilist[..], base, live, ptr);
        d := ilist[(ptr - VAL_OFFSET - base) / SLOT_LEN].val[..l];
      } else {
        LargeLive(blist[..], mem[..], base, live, home, ptr);
        d := mem[ptr..ptr + l];
      }
    }
  }
}
