/** memalloc.cc: the byte layout of the guarded heap, and what each change of the heap does to it. */
module HeapLayout {
  import opened Bytes
  import opened Memory

  const ENTRY_LEN: nat := 13
  const MAX_BUF_LEN: nat := 65535
  const WORD: nat := 8                 // sizeof(uintptr_t)
  const HEADER: nat := 12              // bytes in front of a large payload

  /** The slot heap: `count` slots from `start` on. */
  datatype Geometry = Geometry(start: nat, count: nat) {
    function End(): nat {
      start + ENTRY_LEN * count
    }

    function Slot(i: nat): nat {
      start + ENTRY_LEN * i
    }

    /** The pointer handed out for slot i. */
    function Ptr(i: nat): nat {
      start + ENTRY_LEN * i + 4
    }
  }

  /** The 13 bytes of a slot just handed out for l bytes. */
  function NewSlot(l: nat): (r: seq<byte>)
    ensures |r| == ENTRY_LEN
  {
    [MAGIC_BYTE, 0] + ToLE(l, 2) + Fill(WORD) + [MAGIC_BYTE]
  }

  ghost predicate UsedSlot(s: seq<byte>, a: nat, l: nat)
    requires a + ENTRY_LEN <= |s|
  {
    && 0 < l <= WORD
    && s[a] == MAGIC_BYTE && s[a + 1] == 0
    && FromLE(s[a + 2..a + 4]) == l
    && (forall k :: a + 4 + l <= k < a + 12 ==> s[k] == ZERO_BYTE)
    && s[a + 12] == MAGIC_BYTE
  }

  ghost predicate FreeSlot(s: seq<byte>, a: nat)
    requires a + ENTRY_LEN <= |s|
  {
    forall k :: a <= k < a + ENTRY_LEN ==> s[k] == ZERO_BYTE
  }

  /** A large block around payload p .. p + l: header, size, self pointer, canary. */
  ghost predicate LargeBlock(s: seq<byte>, p: nat, l: nat)
    requires HEADER <= p && p + l < |s|
  {
    && WORD < l <= MAX_BUF_LEN
    && s[p - 12] == MAGIC_BYTE && s[p - 11] == 0
    && FromLE(s[p - 10..p - 8]) == l
    && FromLE(s[p - 8..p]) == p
    && s[p + l] == MAGIC_BYTE
  }

  /** Live pointers below the end of the slots are the pointers of slots. */
  ghost predicate SlotPointers(g: Geometry, live: Live) {
    forall p :: p in live && p < g.End() ==> g.start + 4 <= p && (p - 4 - g.start) % ENTRY_LEN == 0
  }

  /** Every slot is in use by its pointer, or filled with ZERO_BYTE. */
  ghost predicate Slots(s: seq<byte>, g: Geometry, live: Live)
    requires g.End() <= |s|
  {
    forall i :: 0 <= i < g.count ==>
      if g.Ptr(i) in live then UsedSlot(s, g.Slot(i), live[g.Ptr(i)]) else FreeSlot(s, g.Slot(i))
  }

  ghost predicate LargeBlocks(s: seq<byte>, g: Geometry, live: Live) {
    forall p :: p in live && p >= g.End() ==>
      g.End() + HEADER <= p && p + live[p] < |s| && LargeBlock(s, p, live[p])
  }

  /** Different large blocks, guards included, do not overlap. */
  ghost predicate LargeApart(g: Geometry, live: Live) {
    forall p, q :: p in live && q in live && g.End() <= p < q ==> p + live[p] + 1 + HEADER <= q
  }

  /** The heap bytes s represent the live blocks. */
  ghost predicate Layout(s: seq<byte>, g: Geometry, live: Live) {
    && HEADER < g.start && 0 < g.count && g.End() <= |s| <= U64
    && SlotPointers(g, live)
    && Slots(s, g, live)
    && LargeBlocks(s, g, live)
    && LargeApart(g, live)
  }

  /** The plain map from live pointers to payloads that the heap stands for. */
  function View(s: seq<byte>, live: Live): map<nat, seq<byte>> {
    map p | p in live && p + live[p] <= |s| :: s[p..p + live[p]]
  }

  // ---------------------------------------------------------------- consequences

  lemma LiveBounds(s: seq<byte>, g: Geometry, live: Live, p: nat)
    requires Layout(s, g, live) && p in live
    ensures 0 < live[p] <= MAX_BUF_LEN && g.start + 4 <= p && p + live[p] < |s|
    ensures p < g.End() ==> live[p] <= WORD && p + WORD < g.End()
    ensures p >= g.End() ==> live[p] > WORD && g.End() + HEADER <= p
  {
    if p < g.End() {
      var i := (p - 4 - g.start) / ENTRY_LEN;
      assert p == g.Ptr(i);
      assert UsedSlot(s, g.Slot(i), live[g.Ptr(i)]);
    }
  }

  lemma LayoutGeometry(s: seq<byte>, g: Geometry, live: Live)
    requires Layout(s, g, live)
    ensures HEADER < g.start && 0 < g.count && g.End() <= |s| <= U64
  {
  }

  /** A pointer at which a slot payload would begin tells the state of that slot. */
  lemma SlotState(s: seq<byte>, g: Geometry, live: Live, p: nat)
    requires Layout(s, g, live) && g.start + 4 <= p < g.End() && (p - 4 - g.start) % ENTRY_LEN == 0
    ensures p + 8 < |s|
    ensures if p in live then UsedSlot(s, p - 4, live[p]) else FreeSlot(s, p - 4)
  {
    var i := (p - 4 - g.start) / ENTRY_LEN;
    assert i < g.count && p == g.Ptr(i);
  }

  /** A live pointer into the slots is the pointer of a used slot. */
  lemma SmallLive(s: seq<byte>, g: Geometry, live: Live, p: nat)
    requires Layout(s, g, live) && p in live && p < g.End()
    ensures var i := (p - 4 - g.start) / ENTRY_LEN;
      g.start + 4 <= p && i < g.count && p == g.Ptr(i) && UsedSlot(s, g.Slot(i), live[p])
  {
    var i := (p - 4 - g.start) / ENTRY_LEN;
    assert p == g.Ptr(i);
  }

  lemma LargeLive(s: seq<byte>, g: Geometry, live: Live, p: nat)
    requires Layout(s, g, live) && p in live && p >= g.End()
    ensures HEADER <= p && p + live[p] < |s| && LargeBlock(s, p, live[p])
  {
  }

  /** Payloads of different live pointers never share a byte. */
  lemma PayloadsDisjoint(s: seq<byte>, g: Geometry, live: Live, p: nat, q: nat)
    requires Layout(s, g, live) && p in live && q in live && p < q
    ensures p + live[p] <= q
  {
    hide UsedSlot, FreeSlot, LargeBlock, Slots, LargeBlocks;
    LiveBounds(s, g, live, p);
    LiveBounds(s, g, live, q);
  }

  lemma UsedKeeps(s: seq<byte>, s': seq<byte>, a: nat, l: nat)
    requires a + ENTRY_LEN <= |s| && |s'| == |s| && UsedSlot(s, a, l)
    requires forall k :: a <= k < a + ENTRY_LEN ==> s'[k] == s[k]
    ensures UsedSlot(s', a, l)
  {
    assert s'[a + 2..a + 4] == s[a + 2..a + 4];
  }

  lemma LargeKeeps(s: seq<byte>, s': seq<byte>, p: nat, l: nat)
    requires HEADER <= p && p + l < |s| && |s'| == |s| && LargeBlock(s, p, l)
    requires forall k :: p - HEADER <= k < p || k == p + l ==> s'[k] == s[k]
    ensures LargeBlock(s', p, l)
  {
    assert s'[p - 10..p - 8] == s[p - 10..p - 8];
    assert s'[p - 8..p] == s[p - 8..p];
  }

  // ---------------------------------------------------------------- steps

  /** The payload of q is the same in s and s'. */
  ghost predicate SamePayload(s: seq<byte>, s': seq<byte>, live: Live, q: nat)
    requires q in live
  {
    |s'| == |s| && q + live[q] < |s| && s'[q..q + live[q]] == s[q..q + live[q]]
  }

  /** A payload that the change does not reach stays the same. */
  lemma PayloadKeeps(s: seq<byte>, s': seq<byte>, g: Geometry, live: Live, q: nat, lo: nat, hi: nat)
    requires Layout(s, g, live) && q in live && Within(s, s', lo, hi)
    requires q + live[q] <= lo || hi <= q
    ensures SamePayload(s, s', live, q)
  {
    LiveBounds(s, g, live, q);
  }

  /** Slots other than slot i keep their state. */
  lemma OtherSlotsKeep(s: seq<byte>, s': seq<byte>, g: Geometry, live: Live, live': Live, i: nat)
    requires g.End() <= |s| == |s'| && Slots(s, g, live) && SameBut(live, live', g.Ptr(i))
    requires forall k :: g.start <= k < g.End() && !(g.Slot(i) <= k < g.Slot(i) + ENTRY_LEN) ==> s'[k] == s[k]
    requires i < g.count ==>
      if g.Ptr(i) in live' then UsedSlot(s', g.Slot(i), live'[g.Ptr(i)]) else FreeSlot(s', g.Slot(i))
    ensures Slots(s', g, live')
  {
    forall j | 0 <= j < g.count
      ensures if g.Ptr(j) in live' then UsedSlot(s', g.Slot(j), live'[g.Ptr(j)]) else FreeSlot(s', g.Slot(j))
    {
      if j != i && g.Ptr(j) in live {
        UsedKeeps(s, s', g.Slot(j), live[g.Ptr(j)]);
      }
    }
  }

  /** Large blocks whose guards the change does not reach stay. */
  lemma OtherBlocksKeep(s: seq<byte>, s': seq<byte>, g: Geometry, live: Live, lo: nat, hi: nat)
    requires LargeBlocks(s, g, live) && Within(s, s', lo, hi)
    requires forall q :: q in live && q >= g.End() ==>
      hi <= q - HEADER || q + live[q] < lo || (q <= lo && hi <= q + live[q])
    ensures LargeBlocks(s', g, live)
  {
    forall q | q in live && q >= g.End()
      ensures g.End() + HEADER <= q && q + live[q] < |s'| && LargeBlock(s', q, live[q])
    {
      LargeKeeps(s, s', q, live[q]);
    }
  }

  /** A slot keeps clear of every payload but its own. */
  lemma SlotClear(s: seq<byte>, g: Geometry, live: Live, i: nat, q: nat)
    requires Layout(s, g, live) && i < g.count && q in live && q != g.Ptr(i)
    ensures q + live[q] <= g.Slot(i) || g.Slot(i) + ENTRY_LEN <= q
  {
    LiveBounds(s, g, live, q);
    if q < g.End() {
      var j := (q - 4 - g.start) / ENTRY_LEN;
      assert q == g.start + ENTRY_LEN * j + 4 && j != i;
    }
  }

  /** Slot i is handed out or taken back, and nothing else happens. */
  lemma SlotChanges(s: seq<byte>, s': seq<byte>, g: Geometry, live: Live, live': Live, i: nat)
    requires Layout(s, g, live) && i < g.count && SameBut(live, live', g.Ptr(i))
    requires Within(s, s', g.Slot(i), g.Slot(i) + ENTRY_LEN)
    requires if g.Ptr(i) in live' then UsedSlot(s', g.Slot(i), live'[g.Ptr(i)]) else FreeSlot(s', g.Slot(i))
    ensures Layout(s', g, live')
  {
    OtherSlotsKeep(s, s', g, live, live', i);
    OtherBlocksKeep(s, s', g, live, g.Slot(i), g.Slot(i) + ENTRY_LEN);
    assert SlotPointers(g, live');
    LargesUnchanged(s', g, live, live', g.Ptr(i));
  }

  lemma LargesUnchanged(s: seq<byte>, g: Geometry, live: Live, live': Live, p: nat)
    requires LargeBlocks(s, g, live) && LargeApart(g, live) && SameBut(live, live', p) && p < g.End()
    ensures LargeBlocks(s, g, live') && LargeApart(g, live')
  {
  }

  /** The other payloads of a heap in which slot i changes. */
  lemma SlotChangesKeep(s: seq<byte>, s': seq<byte>, g: Geometry, live: Live, i: nat)
    requires Layout(s, g, live) && i < g.count
    requires Within(s, s', g.Slot(i), g.Slot(i) + ENTRY_LEN)
    ensures forall q :: q in live && q != g.Ptr(i) ==> SamePayload(s, s', live, q)
  {
    forall q | q in live && q != g.Ptr(i)
      ensures SamePayload(s, s', live, q)
    {
      SlotClear(s, g, live, i, q);
      PayloadKeeps(s, s', g, live, q, g.Slot(i), g.Slot(i) + ENTRY_LEN);
    }
  }

  /** Bytes b .. b + n lie in the system's part of memory and belong to no live block. */
  ghost predicate FreshRegion(s: seq<byte>, g: Geometry, live: Live, b: nat, n: nat) {
    && g.End() <= b && b + n <= |s|
    && forall q :: q in live && q >= g.End() ==> b + n + HEADER <= q || q + live[q] + 1 <= b
  }

  /** A large block appears in a fresh region. */
  lemma LargeAppears(s: seq<byte>, s': seq<byte>, g: Geometry, live: Live, p: nat, l: nat)
    requires Layout(s, g, live) && HEADER <= p && FreshRegion(s, g, live, p - HEADER, ENTRY_LEN + l)
    requires Within(s, s', p - HEADER, p + l + 1) && LargeBlock(s', p, l)
    ensures p !in live && Layout(s', g, live[p := l])
    ensures forall q :: q in live ==> SamePayload(s, s', live, q)
  {
    var live' := live[p := l];
    OtherSlotsKeep(s, s', g, live, live, g.count);
    assert Slots(s', g, live');
    OtherBlocksKeep(s, s', g, live, p - HEADER, p + l + 1);
    assert LargeBlocks(s', g, live');
    assert SlotPointers(g, live') && LargeApart(g, live');
    forall q | q in live
      ensures SamePayload(s, s', live, q)
    {
      LiveBounds(s, g, live, q);
      PayloadKeeps(s, s', g, live, q, p - HEADER, p + l + 1);
    }
  }

  /** A large block goes; its bytes no longer matter. */
  lemma LargeGoes(s: seq<byte>, g: Geometry, live: Live, p: nat)
    requires Layout(s, g, live) && p in live && p >= g.End()
    ensures Layout(s, g, live - {p})
  {
  }

  /** The guards of a slot survive a write inside its payload. */
  lemma UsedSlotWritten(s: seq<byte>, s': seq<byte>, a: nat, l: nat, lo: nat, hi: nat)
    requires a + ENTRY_LEN <= |s| && UsedSlot(s, a, l) && Within(s, s', lo, hi)
    requires a + 4 <= lo <= hi <= a + 4 + l
    ensures UsedSlot(s', a, l)
  {
    assert s'[a + 2..a + 4] == s[a + 2..a + 4];
  }

  /** A write inside a payload leaves every guard byte and every other payload alone. */
  lemma PayloadWritten(s: seq<byte>, s': seq<byte>, g: Geometry, live: Live, p: nat, lo: nat, hi: nat)
    requires Layout(s, g, live) && p in live && p <= lo <= hi <= p + live[p]
    requires Within(s, s', lo, hi)
    ensures Layout(s', g, live)
    ensures forall q :: q in live && q != p ==> SamePayload(s, s', live, q)
  {
    hide UsedSlot, FreeSlot, LargeBlock;
    LiveBounds(s, g, live, p);
    if p < g.End() {
      var i := (p - 4 - g.start) / ENTRY_LEN;
      assert p == g.Ptr(i);
      assert UsedSlot(s, g.Slot(i), live[g.Ptr(i)]);
      UsedSlotWritten(s, s', g.Slot(i), live[p], lo, hi);
      OtherSlotsKeep(s, s', g, live, live, i);
    } else {
      OtherSlotsKeep(s, s', g, live, live, g.count);
    }
    OtherBlocksKeep(s, s', g, live, lo, hi);
    forall q | q in live && q != p
      ensures SamePayload(s, s', live, q)
    {
      if q < p { PayloadsDisjoint(s, g, live, q, p); } else { PayloadsDisjoint(s, g, live, p, q); }
      PayloadKeeps(s, s', g, live, q, lo, hi);
    }
  }

  // ---------------------------------------------------------------- the map

  ghost predicate InBounds(s: seq<byte>, live: Live) {
    forall q :: q in live ==> q + live[q] < |s|
  }

  lemma LayoutInBounds(s: seq<byte>, g: Geometry, live: Live)
    requires Layout(s, g, live)
    ensures InBounds(s, live)
  {
    forall q | q in live
      ensures q + live[q] < |s|
    {
      LiveBounds(s, g, live, q);
    }
  }

  lemma ViewAt(s: seq<byte>, live: Live, q: nat)
    requires InBounds(s, live)
    ensures q in View(s, live) <==> q in live
    ensures q in live ==> q + live[q] < |s| && View(s, live)[q] == s[q..q + live[q]]
  {
  }

  /** The map changes at p only: p has a new payload there, or is gone. */
  lemma ViewChanges(s: seq<byte>, s': seq<byte>, live: Live, live': Live, p: nat)
    requires InBounds(s, live) && InBounds(s', live') && SameBut(live, live', p)
    requires forall q :: q in live && q != p ==> SamePayload(s, s', live, q)
    ensures p in live' ==> p + live'[p] <= |s'| && View(s', live') == View(s, live)[p := s'[p..p + live'[p]]]
    ensures p !in live' ==> View(s', live') == View(s, live) - {p}
  {
    var v, v' := View(s, live), View(s', live');
    forall q
      ensures q != p ==> (q in v' <==> q in v) && (q in v ==> v'[q] == v[q])
      ensures p in v' <==> p in live'
    {
      ViewAt(s, live, q);
      ViewAt(s', live', q);
      ViewAt(s', live', p);
      if q in live && q != p {
        assert SamePayload(s, s', live, q);
      }
    }
    assert MapsAgree(v, v', p);
    if p in live' {
      ViewAt(s', live', p);
      MapUpdated(v, v', p, s'[p..p + live'[p]]);
    } else {
      MapRemoved(v, v', p);
    }
  }
}
