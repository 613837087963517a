/** memalloc.cc: the allocator over its slot heap and guarded large blocks. The array is the address
    space: an address is an index, and NULL is 0. The system allocator is the choice of a fresh region. */
module GuardedHeap {
  import opened Arithmetic
  import opened Bytes
  import opened Memory
  import opened HeapLayout
  import opened HeapSteps
  import opened HeapPointers

  /** How many steps slot i lies ahead of slot c, going round n slots. */
  function Ahead(n: nat, c: nat, i: nat): (r: nat)
    requires c < n && i < n
    ensures r < n && (c + r) % n == i
    ensures r == if c <= i then i - c else i + n - c
  {
    AheadAgain(n, c, i);
    (i + n - c) % n
  }

  lemma AheadAgain(n: nat, c: nat, i: nat)
    requires c < n && i < n
    ensures (i + n - c) % n == if c <= i then i - c else i + n - c
    ensures (c + (if c <= i then i - c else i + n - c)) % n == i
  {
    DivModUnique(n, 0, i);
    DivModUnique(n, 1, i);
    DivModUnique(n, if c <= i then 1 else 0, if c <= i then i - c else i + n - c);
  }

  /** What the heap stands for: the map from live pointers to payloads, the highest canary address so far,
      and the slot at which the next search begins. */
  datatype Plain = Plain(m: map<nat, seq<byte>>, top: nat, cursor: nat)

  class Heap {
    const mem: array<byte>
    const geo: Geometry          // s_iheap_start, s_iheap_end
    var iheapMax: nat            // s_iheap_max
    var lastP: nat               // s_last_p
    ghost var cursor: nat        // the slot at s_last_p
    ghost var live: Live

    /** The cursor is a slot boundary inside the heap, and large blocks end at or below the maximum. */
    ghost predicate Bounds()
      reads this
    {
      && cursor < geo.count && lastP == geo.Slot(cursor)
      && geo.End() <= iheapMax <= mem.Length
      && forall p :: p in live && p >= geo.End() ==> p + live[p] <= iheapMax
    }

    /** Where the heap lies. This is all that the tests of _free and xptr_valid need: memory may hold
        anything. */
    ghost predicate Placed()
      reads this
    {
      HEADER < geo.start && 0 < geo.count && geo.End() <= iheapMax <= mem.Length
    }

    ghost predicate Valid()
      reads this, mem
    {
      Layout(mem[..], geo, live) && Bounds()
    }

    /** The plain map from live pointers to payloads. */
    ghost function Map(): map<nat, seq<byte>>
      reads this, mem
    {
      View(mem[..], live)
    }

    ghost function State(): Plain
      reads this, mem
    {
      Plain(Map(), iheapMax, cursor)
    }

    ghost predicate InUse(i: nat)
      reads this
    {
      geo.Ptr(i) in live
    }

    /** The use flag of every slot tells whether it is in use. */
    ghost predicate Flags()
      reads this, mem
    {
      && geo.End() <= mem.Length
      && forall i :: 0 <= i < geo.count ==> mem[geo.Slot(i) + 1] == if InUse(i) then 0 else ZERO_BYTE
    }

    lemma SlotFlags()
      requires Valid()
      ensures Flags()
    {
      forall i | 0 <= i < geo.count
        ensures mem[geo.Slot(i) + 1] == if InUse(i) then 0 else ZERO_BYTE
      {
        assert if geo.Ptr(i) in live then UsedSlot(mem[..], geo.Slot(i), live[geo.Ptr(i)])
          else FreeSlot(mem[..], geo.Slot(i));
      }
    }

    /** _initialize. */
    constructor (space: array<byte>, g: Geometry)
      requires HEADER < g.start && 0 < g.count && g.End() <= space.Length <= U64
      modifies space
      ensures Valid() && live == map[] && mem == space && geo == g && State() == Plain(map[], g.End(), 0)
      ensures Within(old(space[..]), mem[..], g.start, g.End())
    {
      mem, geo := space, g;
      iheapMax, lastP := g.End(), g.start;
      live, cursor := map[], 0;
      new;
      for i := g.start to g.End()
        modifies mem
        invariant forall k :: g.start <= k < i ==> mem[k] == ZERO_BYTE
        invariant forall k :: 0 <= k < mem.Length && !(g.start <= k < i) ==> mem[k] == old(space[k])
      {
        mem[i] := ZERO_BYTE;
      }
    }

    /** The two scanning loops: the first free slot in cyclic order from the cursor, NULL when every slot
        is in use. */
    method FindSlot() returns (p: nat, ghost j: nat)
      requires Flags() && Bounds() && geo.start > 0
      ensures p == 0 <==> forall i :: 0 <= i < geo.count ==> InUse(i)
      ensures p != 0 ==>
        && j < geo.count && p == geo.Slot(j) && !InUse(j)
        && forall i :: 0 <= i < geo.count && !InUse(i) ==> Ahead(geo.count, cursor, j) <= Ahead(geo.count, cursor, i)
    {
      p, j := lastP, cursor;
      while p < geo.End() && mem[p + 1] == 0
        invariant cursor <= j <= geo.count && p == geo.Slot(j)
        invariant forall i :: cursor <= i < j ==> InUse(i)
        decreases geo.count - j
      {
        assert mem[geo.Slot(j) + 1] == if InUse(j) then 0 else ZERO_BYTE;
        p, j := p + ENTRY_LEN, j + 1;
      }
      if lastP > geo.start && p >= geo.End() {
        p, j := geo.start, 0;
        while p < lastP && mem[p + 1] == 0
          invariant 0 <= j <= cursor && p == geo.Slot(j)
          invariant forall i :: 0 <= i < j ==> InUse(i)
          decreases geo.count - j
        {
          assert mem[geo.Slot(j) + 1] == if InUse(j) then 0 else ZERO_BYTE;
          p, j := p + ENTRY_LEN, j + 1;
        }
        if p >= lastP {
          return 0, 0;
        }
      } else if p >= geo.End() {
        return 0, 0;
      }
      assert mem[geo.Slot(j) + 1] == if InUse(j) then 0 else ZERO_BYTE;
      assert mem[p + 1] == ZERO_BYTE;      // so the last test before the slot is taken cannot fail
    }

    /** The stores of the small path. */
    method PutSlot(p: nat, l: nat)
      requires p + ENTRY_LEN <= mem.Length
      modifies mem
      ensures mem[..] == Patch(old(mem[..]), p, NewSlot(l))
    {
      hide Patch, ToLE, Fill;
      ghost var s := mem[..];
      Store(mem, p, [MAGIC_BYTE, 0]);
      Store(mem, p + 2, ToLE(l, 2));
      PatchTwice(s, p, [MAGIC_BYTE, 0], ToLE(l, 2));
      Store(mem, p + 4, Fill(WORD));              // UINTPTR_MAX
      PatchTwice(s, p, [MAGIC_BYTE, 0] + ToLE(l, 2), Fill(WORD));
      Store(mem, p + ENTRY_LEN - 1, [MAGIC_BYTE]);
      PatchTwice(s, p, [MAGIC_BYTE, 0] + ToLE(l, 2) + Fill(WORD), [MAGIC_BYTE]);
    }

    /** The stores of the large path; p is the start of the block. */
    method PutGuards(p: nat, l: nat)
      requires 0 < l && p + ENTRY_LEN + l <= mem.Length
      modifies mem
      ensures mem[..] == Guarded(old(mem[..]), p + HEADER, l)
    {
      hide Patch, ToLE;
      ghost var s := mem[..];
      Store(mem, p, [MAGIC_BYTE, 0]);
      Store(mem, p + 2, ToLE(l, 2));
      PatchTwice(s, p, [MAGIC_BYTE, 0], ToLE(l, 2));
      Store(mem, p + 4, ToLE(p + HEADER, WORD));
      PatchTwice(s, p, [MAGIC_BYTE, 0] + ToLE(l, 2), ToLE(p + HEADER, WORD));
      Store(mem, p + HEADER, [ZERO_BYTE]);
      PatchTwice(s, p, [MAGIC_BYTE, 0] + ToLE(l, 2) + ToLE(p + HEADER, WORD), [ZERO_BYTE]);
      Store(mem, p + ENTRY_LEN + l - 1, [MAGIC_BYTE]);
    }

    /** The small path of _malloc. */
    method MallocSmall(l: nat) returns (r: nat, ghost j: nat)
      requires Valid() && 0 < l <= WORD
      modifies this, mem
      ensures Valid() && iheapMax == old(iheapMax)
      ensures r == 0 <==> forall i :: 0 <= i < geo.count ==> old(InUse(i))
      ensures r == 0 ==> live == old(live) && mem[..] == old(mem[..]) && cursor == old(cursor)
      ensures r != 0 ==>
        && j < geo.count && r == geo.Ptr(j) && !old(InUse(j))
        && (forall i :: 0 <= i < geo.count && !old(InUse(i)) ==>
             Ahead(geo.count, old(cursor), j) <= Ahead(geo.count, old(cursor), i))
        && cursor == (if j + 1 == geo.count then 0 else j + 1)
        && live == old(live)[r := l] && Map() == old(Map())[r := Fill(l)]
    {
      hide Layout, View, Flags, Patch, NewSlot, Fill, Ahead;
      SlotFlags();
      LayoutGeometry(mem[..], geo, live);
      var p: nat;
      p, j := FindSlot();
      assert forall i :: InUse(i) == old(InUse(i));
      if p == 0 {
        return 0, 0;
      }
      SmallTaken(mem[..], geo, live, j, l);
      PutSlot(p, l);
      lastP, cursor := p + ENTRY_LEN, j + 1;
      if lastP + 1 >= geo.End() {
        lastP, cursor := geo.start, 0;
      }
      r := p + 4;
      live := live[r := l];
    }

    /** A region that the system allocator may answer with: below the slots, or above them and apart from
        every live block. */
    ghost predicate SystemRegion(b: nat, n: nat)
      reads this, mem
    {
      0 < b && (b + n <= geo.start || FreshRegion(mem[..], geo, live, b, n))
    }

    /** The large path of _malloc; `sys` is what the system allocator returned. A block below the slots is
        handed out, but the heap keeps no track of it. */
    method MallocLarge(l: nat, sys: nat) returns (r: nat)
      requires Valid() && WORD < l <= MAX_BUF_LEN
      requires sys != 0 ==> SystemRegion(sys, ENTRY_LEN + l)
      modifies this, mem
      ensures Valid() && cursor == old(cursor)
      ensures r == 0 <==> sys == 0
      ensures r == 0 ==> live == old(live) && mem[..] == old(mem[..]) && iheapMax == old(iheapMax)
      ensures r != 0 ==> r == sys + HEADER && r !in old(live) && r + l < mem.Length && mem[r] == ZERO_BYTE
      ensures r != 0 && r < geo.start ==>
        r + l < geo.start && live == old(live) && Map() == old(Map()) && iheapMax == old(iheapMax)
      ensures r != 0 && r >= geo.start ==>
        && r >= geo.End() && live == old(live)[r := l]
        && Map() == old(Map())[r := [ZERO_BYTE] + old(mem[..])[r + 1..r + l]]
        && iheapMax == if r + l > old(iheapMax) then r + l else old(iheapMax)
    {
      hide Layout, View, Guarded;
      if sys == 0 {
        return 0;
      }
      LayoutGeometry(mem[..], geo, live);
      if sys < geo.start {
        LowTaken(mem[..], geo, live, sys + HEADER, l);
      } else {
        LargeTaken(mem[..], geo, live, sys + HEADER, l);
      }
      GuardedIsBlock(mem[..], sys + HEADER, l);
      var nl := ENTRY_LEN + l;
      PutGuards(sys, l);
      if sys + nl - 1 > iheapMax {
        iheapMax := sys + nl - 1;
      }
      r := sys + HEADER;
      live := if sys < geo.start then live else live[r := l];
    }

    /** _malloc. */
    method Malloc(l: nat, sys: nat) returns (r: nat, ghost j: nat)
      requires Valid()
      requires sys != 0 && WORD < l <= MAX_BUF_LEN ==> SystemRegion(sys, ENTRY_LEN + l)
      modifies this, mem
      ensures Valid()
      ensures (r == 0) == (l == 0 || l > MAX_BUF_LEN ||
                           (if l <= WORD then forall i :: 0 <= i < geo.count ==> old(InUse(i)) else sys == 0))
      ensures r == 0 ==> State() == old(State()) && live == old(live)
      ensures r != 0 ==> r !in old(live) && r + l < mem.Length && mem[r] == ZERO_BYTE
      ensures r != 0 && l <= WORD ==>
        && j < geo.count && r == geo.Ptr(j)
        && (forall i :: 0 <= i < geo.count && !old(InUse(i)) ==>
             Ahead(geo.count, old(cursor), j) <= Ahead(geo.count, old(cursor), i))
        && cursor == (if j + 1 == geo.count then 0 else j + 1) && iheapMax == old(iheapMax)
      ensures r != 0 && l > WORD ==>
        && r == sys + HEADER && (r + l < geo.start || r >= geo.End()) && cursor == old(cursor)
        && iheapMax == if r >= geo.End() && r + l > old(iheapMax) then r + l else old(iheapMax)
      ensures r != 0 && r < geo.start ==> l > WORD && live == old(live) && Map() == old(Map())
      ensures r != 0 && r >= geo.start ==>
        && live == old(live)[r := l] && r in Map() && |Map()[r]| == l && Map() == old(Map())[r := Map()[r]]
        && Map()[r] == mem[r..r + l]
    {
      hide Layout, View, SystemRegion, Ahead;
      LayoutGeometry(mem[..], geo, live);
      assert forall i :: InUse(i) == old(InUse(i));
      j := 0;
      if l == 0 || l > MAX_BUF_LEN {
        return 0, 0;
      }
      if l <= WORD {
        r, j := MallocSmall(l);
        if r != 0 {
          HandedOut(r);
          assert mem[r] == Fill(l)[0];
        }
      } else {
        r := MallocLarge(l, sys);
        if r != 0 && r >= geo.start {
          HandedOut(r);
        }
      }
    }

    /** The map holds the bytes of memory. */
    lemma HandedOut(r: nat)
      requires Valid() && r in live
      ensures r in Map() && r + live[r] < mem.Length && Map()[r] == mem[r..r + live[r]]
    {
      hide Layout, View;
      LayoutInBounds(mem[..], geo, live);
      ViewAt(mem[..], live, r);
    }

    /** The tests of _free and xptr_valid on a pointer into the slots, for an access of n bytes. */
    method CheckSmall(ptr: nat, n: nat) returns (o: Outcome, size: nat)
      requires Placed() && geo.start < ptr < geo.End()
      ensures o == Accepted <==> Looks(mem[..], geo, iheapMax, ptr, size) && n <= size
      ensures o == Outside <==> RunsOff(mem[..], geo, iheapMax, ptr, size) && n <= size
      ensures forall l :: Head(mem[..], geo, iheapMax, ptr, l) ==> l == size
    {
      var p := ptr - 4;
      size := FromLE(mem[p + 2..p + 4]);
      if mem[p + 1] != 0 || size > WORD || size == 0 || n > size || mem[p] != MAGIC_BYTE {
        return Refused, size;
      }
      if p + ENTRY_LEN - 1 >= mem.Length {
        return Outside, size;
      }
      o := if mem[p + ENTRY_LEN - 1] == MAGIC_BYTE then Accepted else Refused;
    }

    /** The tests of _free and xptr_valid on a pointer behind the slots, for an access of n bytes. */
    method CheckLarge(ptr: nat, n: nat) returns (o: Outcome, size: nat)
      requires Placed() && geo.End() <= ptr < iheapMax
      ensures o == Accepted <==> Looks(mem[..], geo, iheapMax, ptr, size) && n <= size
      ensures o == Outside <==> RunsOff(mem[..], geo, iheapMax, ptr, size) && n <= size
      ensures forall l :: Head(mem[..], geo, iheapMax, ptr, l) ==> l == size
    {
      var p := ptr - HEADER;
      size := FromLE(mem[p + 2..p + 4]);
      if mem[p + 1] != 0 || FromLE(mem[p + 4..p + 12]) != ptr || size > MAX_BUF_LEN || size == 0 || n > size
         || mem[p] != MAGIC_BYTE {
        return Refused, size;
      }
      if p + ENTRY_LEN - 1 + size >= mem.Length {
        return Outside, size;
      }
      o := if mem[p + ENTRY_LEN - 1 + size] == MAGIC_BYTE then Accepted else Refused;
    }

    /** Whether the bytes of the slot payload behind the requested size still hold the fill value. */
    method FillIntact(ptr: nat, size: nat) returns (ok: bool)
      requires 0 < size <= WORD && ptr + WORD <= mem.Length
      ensures ok <==> Intact(mem[..], ptr, size)
    {
      for i := size to WORD
        invariant forall k :: ptr + size <= k < ptr + i ==> mem[k] == ZERO_BYTE
      {
        if mem[ptr + i] != ZERO_BYTE {
          assert mem[..][ptr + i] != ZERO_BYTE;
          return false;
        }
      }
      ok := true;
    }

    /** _free of a pointer into the slots. */
    method FreeSmall(ptr: nat) returns (o: Outcome)
      requires Placed() && geo.start < ptr < geo.End()
      modifies this, mem
      ensures o == Accepted <==> Frees(old(mem[..]), geo, old(iheapMax), ptr)
      ensures o == Outside <==> exists l :: RunsOff(old(mem[..]), geo, old(iheapMax), ptr, l)
      ensures o != Accepted ==> live == old(live) && mem[..] == old(mem[..])
      ensures old(Valid()) && (o == Accepted ==> ptr in old(live)) ==> Valid()
      ensures old(Valid()) && o == Accepted && ptr in old(live) ==>
        live == old(live) - {ptr} && Map() == old(Map()) - {ptr}
      ensures cursor == old(cursor) && iheapMax == old(iheapMax)
    {
      hide Layout, View, Looks, RunsOff, Intact;
      var size;
      o, size := CheckSmall(ptr, 0);
      LooksHead(mem[..], geo, iheapMax, ptr);
      if o != Accepted {
        return;
      }
      LooksSmall(mem[..], geo, iheapMax, ptr, size);
      var intact := FillIntact(ptr, size);
      if !intact {
        return Refused;
      }
      ghost var i := (ptr - 4 - geo.start) / ENTRY_LEN;
      if Valid() && ptr in live {
        SmallLive(mem[..], geo, live, ptr);
        SmallFreed(mem[..], geo, live, i);
      }
      Store(mem, ptr - 4, Fill(ENTRY_LEN));
      live := live - {ptr};
    }

    /** _free of any pointer, whatever memory holds: accepted exactly when header, canary and, in a slot, the
        fill bytes are there. In a heap as it should be, accepting a live pointer removes it from the map.
        Nothing is promised about the heap after a pointer that is not live was accepted. */
    method Free(ptr: nat) returns (o: Outcome)
      requires Placed()
      modifies this, mem
      ensures o == Accepted <==> Frees(old(mem[..]), geo, old(iheapMax), ptr)
      ensures o == Outside <==> exists l :: RunsOff(old(mem[..]), geo, old(iheapMax), ptr, l)
      ensures o != Accepted ==> live == old(live) && mem[..] == old(mem[..])
      ensures old(Valid()) && ptr in old(live) ==>
        o == Accepted && Valid() && live == old(live) - {ptr} && Map() == old(Map()) - {ptr}
      ensures old(Valid()) && o != Accepted ==> Valid()
      ensures old(Valid()) && ptr !in old(live) && Refusable(geo, old(iheapMax), ptr) ==> o == Refused
      ensures cursor == old(cursor) && iheapMax == old(iheapMax)
    {
      hide Layout, View, Intact;
      if Valid() { Verdicts(ptr); }
      if ptr == 0 {
        return Refused;
      }
      if ptr < geo.End() && ptr > geo.start {
        hide Looks, RunsOff;
        o := FreeSmall(ptr);
      } else if ptr >= geo.End() && ptr < iheapMax {
        var size;
        o, size := CheckLarge(ptr, 0);
        LooksHead(mem[..], geo, iheapMax, ptr);
        if o != Accepted {
          return;
        }
        if Valid() && ptr in live { LargeFreed(mem[..], geo, live, ptr); }
        live := live - {ptr};        // free
      } else {
        o := Refused;
      }
    }

    /** Live pointers pass the tests; refusable ones have no header. */
    lemma Verdicts(ptr: nat)
      requires Valid()
      ensures Placed()
      ensures ptr in live ==>
        && Looks(mem[..], geo, iheapMax, ptr, live[ptr]) && Frees(mem[..], geo, iheapMax, ptr)
        && (forall l :: Head(mem[..], geo, iheapMax, ptr, l) ==> l == live[ptr])
        && geo.start < ptr && ptr + live[ptr] < mem.Length && 0 < live[ptr] <= MAX_BUF_LEN
      ensures ptr !in live && Refusable(geo, iheapMax, ptr) ==> forall l :: !Head(mem[..], geo, iheapMax, ptr, l)
    {
      hide Layout, Looks, Head, Intact;
      LayoutGeometry(mem[..], geo, live);
      if ptr in live {
        LiveBounds(mem[..], geo, live, ptr);
        LivePasses(mem[..], geo, iheapMax, live, ptr);
      } else if Refusable(geo, iheapMax, ptr) {
        RefusedForCertain(mem[..], geo, iheapMax, live, ptr);
      }
    }

    /** xptr_valid of any pointer, given how many bytes are to be accessed: accepted exactly when header and
        canary are there and the access fits the size they announce. */
    method XptrValid(ptr: nat, n: nat) returns (o: Outcome)
      requires Placed()
      ensures o == Accepted <==> Admits(mem[..], geo, iheapMax, ptr, n)
      ensures o == Outside <==> exists l :: RunsOff(mem[..], geo, iheapMax, ptr, l) && n <= l
      ensures o == Refused <==> !Passes(mem[..], geo, iheapMax, ptr, n)
      ensures Valid() && ptr in live ==> o == if n <= live[ptr] then Accepted else Refused
      ensures Valid() && ptr !in live && Refusable(geo, iheapMax, ptr) ==> o == Refused
    {
      hide Layout, View, Frees;
      if Valid() { Verdicts(ptr); }
      if ptr == 0 {
        return Refused;
      }
      LooksHead(mem[..], geo, iheapMax, ptr);
      var size;
      if ptr < geo.End() && ptr > geo.start {
        hide Looks, RunsOff, Head;
        o, size := CheckSmall(ptr, n);
      } else if ptr >= geo.End() && ptr < iheapMax {
        hide Looks, RunsOff, Head;
        o, size := CheckLarge(ptr, n);
      } else {
        o := Refused;
      }
    }

    /** A write through xptr_assert: the sum pos + len and the address are computed in size_t. Refused is
        the fatal exit. For a live pointer the write is refused exactly when the wrapped sum exceeds the
        size; a write in bounds changes its own stretch of its own payload and nothing else in the map. */
    method Write(ptr: nat, pos: nat, data: seq<byte>) returns (o: Outcome)
      requires Valid() && pos < U64 && |data| < U64
      modifies mem
      ensures o == Refused <==> !Passes(old(mem[..]), geo, iheapMax, ptr, (pos + |data|) % U64)
      ensures ptr in live ==> (o == Refused <==> (pos + |data|) % U64 > live[ptr])
      ensures ptr in live ==>
        (o != Refused && pos + |data| > live[ptr] <==> pos + |data| >= U64 && pos + |data| - U64 <= live[ptr])
      ensures ptr in live && o != Refused ==> (o == Outside <==> (ptr + pos) % U64 + |data| > mem.Length)
      ensures ptr !in live && Refusable(geo, iheapMax, ptr) ==> o == Refused
      ensures o == Refused ==> Valid() && mem[..] == old(mem[..])
      ensures o == Accepted ==>
        var a := (ptr + pos) % U64; a + |data| <= mem.Length && mem[..] == Patch(old(mem[..]), a, data)
      ensures ptr in live && pos + |data| <= live[ptr] ==>
        && o == Accepted && Valid()
        && ptr in old(Map()) && |old(Map())[ptr]| == live[ptr]
        && Map() == old(Map())[ptr := Patch(old(Map())[ptr], pos, data)]
    {
      hide Layout, View, Admits, RunsOff, Passes, Refusable, Looks, Head, Frees, Patch;
      Verdicts(ptr);
      if ptr in live { WrapAdmits(live[ptr], pos, |data|); }
      o := XptrValid(ptr, (pos + |data|) % U64);
      if o != Accepted {
        return;
      }
      if ptr in live && pos + |data| <= live[ptr] {
        InBoundsAccess(ptr, pos, |data|);
        Written(mem[..], geo, live, ptr, pos, data);
      }
      var a := (ptr + pos) % U64;
      if a + |data| > mem.Length {
        return Outside;
      }
      Store(mem, a, data);
    }

    lemma MemoryFits()
      requires Valid()
      ensures mem.Length <= U64
    {
    }

    /** An access within a live payload: its address does not wrap, and memory holds what the map says. */
    lemma InBoundsAccess(ptr: nat, pos: nat, n: nat)
      requires Valid() && ptr in live && pos + n <= live[ptr]
      ensures (ptr + pos) % U64 == ptr + pos && ptr + pos + n <= mem.Length
      ensures ptr in Map() && pos + n <= |Map()[ptr]| && Map()[ptr][pos..pos + n] == mem[ptr + pos..ptr + pos + n]
    {
      hide Layout, View;
      MemoryFits();
      HandedOut(ptr);
      PartOf(mem[..], ptr, Map()[ptr], pos, pos + n);
    }

    /** A read through xptr_assert: the bytes at the address, or the fatal exit. */
    method Read(ptr: nat, pos: nat, n: nat) returns (o: Outcome, d: seq<byte>)
      requires Valid() && pos < U64 && n < U64
      ensures o == Refused <==> !Passes(mem[..], geo, iheapMax, ptr, (pos + n) % U64)
      ensures ptr in live ==> (o == Refused <==> (pos + n) % U64 > live[ptr])
      ensures ptr in live ==>
        (o != Refused && pos + n > live[ptr] <==> pos + n >= U64 && pos + n - U64 <= live[ptr])
      ensures ptr !in live && Refusable(geo, iheapMax, ptr) ==> o == Refused
      ensures o == Accepted ==> var a := (ptr + pos) % U64; a + n <= mem.Length && d == mem[a..a + n]
      ensures ptr in live && pos + n <= live[ptr] ==>
        o == Accepted && ptr in Map() && pos + n <= |Map()[ptr]| && d == Map()[ptr][pos..pos + n]
    {
      hide Layout, View, Admits, RunsOff, Passes, Refusable, Looks, Head, Frees;
      Verdicts(ptr);
      d := [];
      if ptr in live { WrapAdmits(live[ptr], pos, n); }
      o := XptrValid(ptr, (pos + n) % U64);
      if o != Accepted {
        return;
      }
      if ptr in live && pos + n <= live[ptr] { InBoundsAccess(ptr, pos, n); }
      var a := (ptr + pos) % U64;
      if a + n > mem.Length {
        return Outside, [];
      }
      d := mem[a..a + n];
    }
  }
}
