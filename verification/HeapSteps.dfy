/** memalloc.cc: every change of the heap's bytes refines one change of the plain map it stands for. */
module HeapSteps {
  import opened Bytes
  import opened Memory
  import opened HeapLayout

  lemma NewSlotUsed(s: seq<byte>, a: nat, l: nat)
    requires a + ENTRY_LEN <= |s| && 0 < l <= WORD
    ensures UsedSlot(Patch(s, a, NewSlot(l)), a, l)
    ensures Patch(s, a, NewSlot(l))[a + 4..a + 4 + l] == Fill(l)
  {
    var s', d := Patch(s, a, NewSlot(l)), NewSlot(l);
    PatchBytes(s, a, d);
    assert s'[a + 0] == d[0] && s'[a + 1] == d[1] && s'[a + 2] == d[2] && s'[a + 3] == d[3] && s'[a + 12] == d[12];
    assert s'[a + 2..a + 4] == ToLE(l, 2);
    LoadStoredWidths(l);
    forall k | a + 4 <= k < a + 12
      ensures s'[k] == ZERO_BYTE
    {
      assert s'[a + (k - a)] == d[k - a] == ZERO_BYTE;
    }
  }

  lemma FilledSlotFree(s: seq<byte>, a: nat)
    requires a + ENTRY_LEN <= |s|
    ensures FreeSlot(Patch(s, a, Fill(ENTRY_LEN)), a)
  {
    var s' := Patch(s, a, Fill(ENTRY_LEN));
    PatchBytes(s, a, Fill(ENTRY_LEN));
    forall k | a <= k < a + ENTRY_LEN
      ensures s'[k] == ZERO_BYTE
    {
      assert s'[a + (k - a)] == Fill(ENTRY_LEN)[k - a];
    }
  }

  /** A change of slot i, seen in the map. */
  lemma SlotRefines(s: seq<byte>, s': seq<byte>, g: Geometry, live: Live, live': Live, i: nat)
    requires Layout(s, g, live) && i < g.count && SameBut(live, live', g.Ptr(i))
    requires Within(s, s', g.Slot(i), g.Slot(i) + ENTRY_LEN)
    requires if g.Ptr(i) in live' then UsedSlot(s', g.Slot(i), live'[g.Ptr(i)]) else FreeSlot(s', g.Slot(i))
    ensures Layout(s', g, live')
    ensures var p := g.Ptr(i);
      && (p in live' ==> p + live'[p] <= |s'| && View(s', live') == View(s, live)[p := s'[p..p + live'[p]]])
      && (p !in live' ==> View(s', live') == View(s, live) - {p})
  {
    hide Layout, View, UsedSlot, FreeSlot, Within;
    SlotChanges(s, s', g, live, live', i);
    SlotChangesKeep(s, s', g, live, i);
    LayoutInBounds(s, g, live);
    LayoutInBounds(s', g, live');
    ViewChanges(s, s', live, live', g.Ptr(i));
  }

  /** Handing out a free slot adds a payload of fill bytes to the map. */
  lemma SmallTaken(s: seq<byte>, g: Geometry, live: Live, i: nat, l: nat)
    requires Layout(s, g, live) && i < g.count && g.Ptr(i) !in live && 0 < l <= WORD
    ensures var s', live' := Patch(s, g.Slot(i), NewSlot(l)), live[g.Ptr(i) := l];
      Layout(s', g, live') && View(s', live') == View(s, live)[g.Ptr(i) := Fill(l)]
  {
    hide View, UsedSlot, NewSlot, Patch, Within;
    PatchWithin(s, g.Slot(i), NewSlot(l));
    NewSlotUsed(s, g.Slot(i), l);
    SlotRefines(s, Patch(s, g.Slot(i), NewSlot(l)), g, live, live[g.Ptr(i) := l], i);
  }

  /** Filling a used slot removes its payload from the map. */
  lemma SmallFreed(s: seq<byte>, g: Geometry, live: Live, i: nat)
    requires Layout(s, g, live) && i < g.count && g.Ptr(i) in live
    ensures var s', live' := Patch(s, g.Slot(i), Fill(ENTRY_LEN)), live - {g.Ptr(i)};
      Layout(s', g, live') && View(s', live') == View(s, live) - {g.Ptr(i)}
  {
    PatchWithin(s, g.Slot(i), Fill(ENTRY_LEN));
    FilledSlotFree(s, g.Slot(i));
    SlotRefines(s, Patch(s, g.Slot(i), Fill(ENTRY_LEN)), g, live, live - {g.Ptr(i)}, i);
  }

  /** The 12 header bytes and the first payload byte of a new large block with payload at p. */
  function LargeHeader(p: nat, l: nat): (r: seq<byte>)
    ensures |r| == HEADER + 1
  {
    [MAGIC_BYTE, 0] + ToLE(l, 2) + ToLE(p, WORD) + [ZERO_BYTE]
  }

  /** The bytes of memory after a large block was guarded: header, first payload byte, canary. */
  function Guarded(s: seq<byte>, p: nat, l: nat): (r: seq<byte>)
    requires HEADER <= p && 0 < l && p + l < |s|
    ensures |r| == |s|
  {
    Patch(Patch(s, p - HEADER, LargeHeader(p, l)), p + l, [MAGIC_BYTE])
  }

  /** The guard bytes read back as the guards of a block. */
  lemma GuardsReadBack(t: seq<byte>, s': seq<byte>, p: nat, l: nat)
    requires HEADER <= p && WORD < l <= MAX_BUF_LEN && p + l < |t| <= U64
    requires t[p - HEADER..p - HEADER + (HEADER + 1)] == LargeHeader(p, l)
    requires Within(t, s', p + l, p + l + 1) && s'[p + l] == MAGIC_BYTE
    ensures LargeBlock(s', p, l) && s'[p] == ZERO_BYTE
  {
    var b, d := p - HEADER, LargeHeader(p, l);
    PartOf(t, b, d, 0, 2);
    PartOf(t, b, d, 2, 4);
    PartOf(t, b, d, 4, 12);
    PartOf(t, b, d, 12, 13);
    assert d[0..2] == [MAGIC_BYTE, 0] && d[2..4] == ToLE(l, 2) && d[4..12] == ToLE(p, WORD) && d[12..13] == [ZERO_BYTE];
    assert t[b + 0..b + 2][0] == t[b] && t[b + 0..b + 2][1] == t[b + 1] && t[b + 12..b + 13][0] == t[p];
    assert s'[p - 12] == t[b] == MAGIC_BYTE && s'[p - 11] == t[b + 1] == 0 && s'[p] == t[p] == ZERO_BYTE;
    assert s'[p - 10..p - 8] == t[b + 2..b + 4] == ToLE(l, 2);
    assert s'[p - 8..p] == t[b + 4..b + 12] == ToLE(p, WORD);
    LoadStoredWidths(l);
    LoadStoredWidths(p);
  }

  lemma GuardedIsBlock(s: seq<byte>, p: nat, l: nat)
    requires HEADER <= p && WORD < l <= MAX_BUF_LEN && p + l < |s| <= U64
    ensures LargeBlock(Guarded(s, p, l), p, l)
    ensures Within(s, Guarded(s, p, l), p - HEADER, p + l + 1)
    ensures Guarded(s, p, l)[p..p + l] == [ZERO_BYTE] + s[p + 1..p + l]
    ensures Guarded(s, p, l)[p] == ZERO_BYTE
  {
    var b, d := p - HEADER, LargeHeader(p, l);
    var t, s' := Patch(s, b, d), Guarded(s, p, l);
    PatchWithin(s, b, d);
    PatchInside(s, b, d);
    PatchWithin(t, p + l, [MAGIC_BYTE]);
    PatchBytes(t, p + l, [MAGIC_BYTE]);
    assert s'[p + l + 0] == MAGIC_BYTE;
    GuardsReadBack(t, s', p, l);
    PatchedTwice(s, t, s', p, l);
  }

  lemma PatchedTwice(s: seq<byte>, t: seq<byte>, s': seq<byte>, p: nat, l: nat)
    requires HEADER <= p && 0 < l && p + l < |s|
    requires Within(s, t, p - HEADER, p + 1) && Within(t, s', p + l, p + l + 1) && s'[p] == ZERO_BYTE
    ensures Within(s, s', p - HEADER, p + l + 1)
    ensures s'[p..p + l] == [ZERO_BYTE] + s[p + 1..p + l]
  {
  }

  /** Guarding a fresh region adds a payload to the map: what memory held there, the first byte reset. */
  lemma LargeTaken(s: seq<byte>, g: Geometry, live: Live, p: nat, l: nat)
    requires Layout(s, g, live) && HEADER <= p && WORD < l <= MAX_BUF_LEN
    requires FreshRegion(s, g, live, p - HEADER, ENTRY_LEN + l)
    ensures p !in live
    ensures var s', live' := Guarded(s, p, l), live[p := l];
      Layout(s', g, live') && View(s', live') == View(s, live)[p := [ZERO_BYTE] + s[p + 1..p + l]]
  {
    var s', live' := Guarded(s, p, l), live[p := l];
    GuardedIsBlock(s, p, l);
    LargeAppears(s, s', g, live, p, l);
    LayoutInBounds(s, g, live);
    LayoutInBounds(s', g, live');
    ViewChanges(s, s', live, live', p);
  }

  /** Guarding a region below the slots changes nothing that the heap keeps track of. */
  lemma LowTaken(s: seq<byte>, g: Geometry, live: Live, p: nat, l: nat)
    requires Layout(s, g, live) && HEADER <= p && WORD < l <= MAX_BUF_LEN && p + l + 1 <= g.start
    ensures p !in live && p + l < |s|
    ensures var s' := Guarded(s, p, l); Layout(s', g, live) && View(s', live) == View(s, live)
  {
    hide Guarded, UsedSlot, FreeSlot, LargeBlock;
    LayoutGeometry(s, g, live);
    GuardedIsBlock(s, p, l);
    BelowHeap(s, Guarded(s, p, l), g, live, p - HEADER, p + l + 1);
    if p in live { LiveBounds(s, g, live, p); }
  }

  lemma BelowHeap(s: seq<byte>, s': seq<byte>, g: Geometry, live: Live, lo: nat, hi: nat)
    requires Layout(s, g, live) && Within(s, s', lo, hi) && hi <= g.start
    ensures Layout(s', g, live) && View(s', live) == View(s, live)
  {
    hide UsedSlot, FreeSlot, LargeBlock, View;
    OtherSlotsKeep(s, s', g, live, live, g.count);
    OtherBlocksKeep(s, s', g, live, lo, hi);
    LayoutInBounds(s, g, live);
    LayoutInBounds(s', g, live);
    forall q | q in live
      ensures SamePayload(s, s', live, q)
    {
      LiveBounds(s, g, live, q);
      PayloadKeeps(s, s', g, live, q, lo, hi);
    }
    SameView(s, s', live);
  }

  lemma SameView(s: seq<byte>, s': seq<byte>, live: Live)
    requires InBounds(s, live) && InBounds(s', live)
    requires forall q :: q in live ==> SamePayload(s, s', live, q)
    ensures View(s', live) == View(s, live)
  {
    forall q | q in live
      ensures View(s', live)[q] == View(s, live)[q]
    {
      assert SamePayload(s, s', live, q);
    }
  }

  /** Giving a large block back removes its payload from the map. */
  lemma LargeFreed(s: seq<byte>, g: Geometry, live: Live, p: nat)
    requires Layout(s, g, live) && p in live && p >= g.End()
    ensures Layout(s, g, live - {p}) && View(s, live - {p}) == View(s, live) - {p}
  {
    LargeGoes(s, g, live, p);
    LayoutInBounds(s, g, live);
    LayoutInBounds(s, g, live - {p});
    ViewChanges(s, s, live, live - {p}, p);
  }

  lemma WriteRefines(s: seq<byte>, s': seq<byte>, g: Geometry, live: Live, p: nat, lo: nat, hi: nat)
    requires Layout(s, g, live) && p in live && p <= lo <= hi <= p + live[p]
    requires Within(s, s', lo, hi)
    ensures p + live[p] < |s'| && Layout(s', g, live)
    ensures View(s', live) == View(s, live)[p := s'[p..p + live[p]]]
  {
    LayoutInBounds(s, g, live);
    PayloadWritten(s, s', g, live, p, lo, hi);
    LayoutInBounds(s', g, live);
    ViewChanges(s, s', live, live, p);
  }

  /** A write inside a payload changes that payload, at that place, and nothing else in the map. */
  lemma Written(s: seq<byte>, g: Geometry, live: Live, p: nat, pos: nat, data: seq<byte>)
    requires Layout(s, g, live) && p in live && pos + |data| <= live[p]
    ensures p + pos + |data| <= |s| && p in View(s, live) && |View(s, live)[p]| == live[p]
    ensures var s' := Patch(s, p + pos, data);
      Layout(s', g, live) && View(s', live) == View(s, live)[p := Patch(View(s, live)[p], pos, data)]
  {
    hide *;
    LayoutInBounds(s, g, live);
    ViewAt(s, live, p);
    PayloadPatched(s, p, live[p], pos, data);
    WriteRefines(s, Patch(s, p + pos, data), g, live, p, p + pos, p + pos + |data|);
  }
}
