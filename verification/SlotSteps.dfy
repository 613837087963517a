/** safe-malloc-free.c: every change of the tables and of block memory refines one change of the plain
    map from live pointers to payloads. */
module SlotSteps {
  import opened Bytes
  import opened Memory
  import opened SlotTables

  /** The payload of a live pointer: the slot's own word, or a stretch of memory. */
  function Payload(islots: seq<Slot>, mem: seq<byte>, base: nat, p: nat, l: nat): seq<byte> {
    if InTable(base, p) then
      if base + VAL_OFFSET <= p then
        var i := (p - VAL_OFFSET - base) / SLOT_LEN;
        if i < |islots| && l <= |islots[i].val| then islots[i].val[..l] else []
      else []
    else if p + l <= |mem| then mem[p..p + l] else []
  }

  function View(islots: seq<Slot>, mem: seq<byte>, base: nat, live: Live): map<nat, seq<byte>> {
    map p | p in live :: Payload(islots, mem, base, p, live[p])
  }

  lemma PtrInTable(base: nat, i: nat)
    requires i < MEM_BLOCKS_MAX_LEN
    ensures InTable(base, Ptr(base, i)) && (Ptr(base, i) - VAL_OFFSET - base) / SLOT_LEN == i
  {
  }

  /** A live pointer into the small table is the pointer of a used slot. */
  lemma SmallLive(islots: seq<Slot>, base: nat, live: Live, p: nat)
    requires SmallTable(islots, base, live) && p in live && InTable(base, p)
    ensures base + VAL_OFFSET <= p
    ensures var i := (p - VAL_OFFSET - base) / SLOT_LEN;
      i < MEM_BLOCKS_MAX_LEN && p == Ptr(base, i) && SmallSlot(islots[i], live[p])
  {
    var i := (p - VAL_OFFSET - base) / SLOT_LEN;
    assert p == Ptr(base, i);
  }

  lemma PayloadLength(islots: seq<Slot>, bslots: seq<Slot>, mem: seq<byte>, base: nat, live: Live,
                      home: map<nat, nat>, p: nat)
    requires Layout(islots, bslots, mem, base, live, home) && p in live
    ensures |Payload(islots, mem, base, p, live[p])| == live[p] && 0 < live[p] <= MAX_BUF_LEN
  {
    if InTable(base, p) { SmallLive(islots, base, live, p); } else { assert Block(mem, p, live[p]); }
  }

  /** Small slot i takes the new state x; nothing else changes. */
  lemma SmallChanges(islots: seq<Slot>, mem: seq<byte>, base: nat, live: Live, live': Live, i: nat, x: Slot)
    requires SmallTable(islots, base, live) && i < MEM_BLOCKS_MAX_LEN && SameBut(live, live', Ptr(base, i))
    requires if Ptr(base, i) in live' then SmallSlot(x, live'[Ptr(base, i)]) else x == FREE
    ensures SmallTable(islots[i := x], base, live')
    ensures var p, v, v' := Ptr(base, i), View(islots, mem, base, live), View(islots[i := x], mem, base, live');
      if p in live' then v' == v[p := x.val[..live'[p]]] else v' == v - {p}
  {
    var p, v, v' := Ptr(base, i), View(islots, mem, base, live), View(islots[i := x], mem, base, live');
    PtrInTable(base, i);
    forall q | q != p
      ensures (q in v' <==> q in v) && (q in v ==> v'[q] == v[q])
    {
      if q in live && InTable(base, q) {
        SmallLive(islots, base, live, q);
      }
    }
    assert MapsAgree(v, v', p);
    if p in live' { MapUpdated(v, v', p, x.val[..live'[p]]); } else { MapRemoved(v, v', p); }
  }

  /** The large table and the blocks do not depend on small pointers. */
  lemma SmallKeepsLarge(bslots: seq<Slot>, mem: seq<byte>, base: nat, live: Live, live': Live, home: map<nat,
                        nat>, p: nat)
    requires LargeTable(bslots, base, live, home) && Blocks(mem, base, live)
    requires SameBut(live, live', p) && InTable(base, p) && p !in home
    ensures LargeTable(bslots, base, live', home) && Blocks(mem, base, live')
  {
    forall j | 0 <= j < MEM_BLOCKS_MAX_LEN && bslots[j] != FREE && bslots[j] != LEAKED
      ensures exists q :: q in live' && !InTable(base, q) && q in home && home[q] == j
    {
      var q :| q in live && !InTable(base, q) && q in home && home[q] == j;
      assert q in live';
    }
  }

  /** The small table does not depend on large pointers. */
  lemma LargeKeepsSmall(islots: seq<Slot>, base: nat, live: Live, live': Live, p: nat)
    requires SmallTable(islots, base, live) && SameBut(live, live', p) && !InTable(base, p)
    ensures SmallTable(islots, base, live')
  {
    forall i | 0 <= i < MEM_BLOCKS_MAX_LEN
      ensures if Ptr(base, i) in live' then SmallSlot(islots[i], live'[Ptr(base, i)]) else islots[i] == FREE
    {
      PtrInTable(base, i);
    }
  }

  /** A free or claimed slot of the large table becomes the home of a new pointer. */
  lemma HomeTaken(bslots: seq<Slot>, base: nat, live: Live, home: map<nat, nat>, j: nat, p: nat, l: nat, x: Slot)
    requires LargeTable(bslots, base, live, home) && j < MEM_BLOCKS_MAX_LEN
    requires bslots[j] == FREE || bslots[j] == LEAKED
    requires p !in live && !InTable(base, p) && LargeSlot(x, p)
    ensures LargeTable(bslots[j := x], base, live[p := l], home[p := j])
  {
    var bslots', live', home' := bslots[j := x], live[p := l], home[p := j];
    forall q | q in live && !InTable(base, q)
      ensures q in home' && home'[q] < MEM_BLOCKS_MAX_LEN && LargeSlot(bslots'[home'[q]], q)
    {
      assert LargeSlot(bslots[home[q]], q);
    }
    forall k | 0 <= k < MEM_BLOCKS_MAX_LEN && bslots'[k] != FREE && bslots'[k] != LEAKED
      ensures exists q :: q in live' && !InTable(base, q) && q in home' && home'[q] == k
    {
      if k == j {
        assert p in live' && home'[p] == k;
      } else {
        var q :| q in live && !InTable(base, q) && q in home && home[q] == k;
        assert q in live' && home'[q] == k;
      }
    }
  }

  /** A free slot that the system gave no block for stays claimed: it is lost, but nothing else changes. */
  lemma SlotLeaks(bslots: seq<Slot>, base: nat, live: Live, home: map<nat, nat>, j: nat)
    requires LargeTable(bslots, base, live, home) && j < MEM_BLOCKS_MAX_LEN && bslots[j].notUsed
    ensures bslots[j].(notUsed := false, bytes := 0) == LEAKED
    ensures LargeTable(bslots[j := LEAKED], base, live, home)
  {
    UnusedIsFree(bslots, base, live, home, j);
    forall q | q in live && !InTable(base, q)
      ensures LargeSlot(bslots[j := LEAKED][home[q]], q)
    {
      assert LargeSlot(bslots[home[q]], q);
    }
    var bslots' := bslots[j := LEAKED];
    forall k | 0 <= k < MEM_BLOCKS_MAX_LEN && bslots'[k] != FREE && bslots'[k] != LEAKED
      ensures exists q :: q in live && !InTable(base, q) && q in home && home[q] == k
    {
      assert bslots[k] != FREE && bslots[k] != LEAKED;
    }
  }

  lemma CountedLeak(bslots: seq<Slot>, base: nat, live: Live, j: nat)
    requires Counted(bslots, base, live) && j < |bslots| && bslots[j] == FREE
    ensures Counted(bslots[j := LEAKED], base, live)
    ensures multiset(bslots[j := LEAKED])[LEAKED] == multiset(bslots)[LEAKED] + 1
  {
    SlotReplaced(bslots, j, LEAKED);
    assert FREE in bslots;
  }

  lemma CountedTaken(bslots: seq<Slot>, base: nat, live: Live, j: nat, p: nat, l: nat, x: Slot)
    requires Counted(bslots, base, live) && j < |bslots| && bslots[j] == LEAKED
    requires p !in live && !InTable(base, p) && LargeSlot(x, p)
    ensures Counted(bslots[j := x], base, live[p := l])
    ensures multiset(bslots[j := x])[LEAKED] + 1 == multiset(bslots)[LEAKED]
  {
    SlotReplaced(bslots, j, x);
    assert LEAKED in bslots;
    assert Larges(base, live[p := l].Keys) == Larges(base, live.Keys) + {p};
  }

  lemma CountedFreed(bslots: seq<Slot>, base: nat, live: Live, j: nat, p: nat)
    requires Counted(bslots, base, live) && j < |bslots| && LargeSlot(bslots[j], p)
    requires p in live && !InTable(base, p)
    ensures Counted(bslots[j := FREE], base, live - {p})
    ensures multiset(bslots[j := FREE])[LEAKED] == multiset(bslots)[LEAKED]
  {
    SlotReplaced(bslots, j, FREE);
    assert bslots[j] in bslots;
    assert Larges(base, (live - {p}).Keys) == Larges(base, live.Keys) - {p};
  }

  lemma CountedSmall(bslots: seq<Slot>, base: nat, live: Live, live': Live, p: nat)
    requires Counted(bslots, base, live) && SameBut(live, live', p) && InTable(base, p)
    ensures Counted(bslots, base, live')
  {
    assert Larges(base, live'.Keys) == Larges(base, live.Keys);
  }

  lemma LeakedLayout(islots: seq<Slot>, bslots: seq<Slot>, mem: seq<byte>, base: nat, live: Live,
                     home: map<nat, nat>, j: nat)
    requires Layout(islots, bslots, mem, base, live, home) && j < |bslots| && bslots[j].notUsed
    ensures |bslots| == MEM_BLOCKS_MAX_LEN && bslots[j].(notUsed := false, bytes := 0) == LEAKED
    ensures Layout(islots, bslots[j := LEAKED], mem, base, live, home)
  {
    SlotLeaks(bslots, base, live, home, j);
  }

  /** The home of a freed pointer becomes free. */
  lemma HomeFreed(bslots: seq<Slot>, base: nat, live: Live, home: map<nat, nat>, p: nat)
    requires LargeTable(bslots, base, live, home) && p in live && !InTable(base, p)
    ensures p in home && home[p] < |bslots|
    ensures LargeTable(bslots[home[p] := FREE], base, live - {p}, home - {p})
  {
    var j := home[p];
    var bslots', live', home' := bslots[j := FREE], live - {p}, home - {p};
    assert LargeSlot(bslots[j], p);
    forall q | q in live' && !InTable(base, q)
      ensures q in home' && home'[q] < MEM_BLOCKS_MAX_LEN && LargeSlot(bslots'[home'[q]], q)
    {
      assert LargeSlot(bslots[home[q]], q);
      LoadStoredWidths(p);
      LoadStoredWidths(q);
    }
    forall k | 0 <= k < MEM_BLOCKS_MAX_LEN && bslots'[k] != FREE && bslots'[k] != LEAKED
      ensures exists q :: q in live' && !InTable(base, q) && q in home' && home'[q] == k
    {
      var q :| q in live && !InTable(base, q) && q in home && home[q] == k;
      assert q in live' && home'[q] == k;
    }
  }

  /** Bytes b .. b + n of memory belong neither to a live block nor to the small table. */
  ghost predicate FreshRegion(mem: seq<byte>, base: nat, live: Live, b: nat, n: nat) {
    && 0 < b && b + n <= |mem| && (b + n <= base || TableEnd(base) <= b)
    && forall q :: q in live && !InTable(base, q) ==> b + n + HEAD <= q || q + live[q] + 1 <= b
  }

  /** The bytes of memory after a large block with payload at p was guarded. */
  function Guarded(mem: seq<byte>, p: nat, l: nat): (r: seq<byte>)
    requires HEAD <= p && p + l < |mem|
    ensures |r| == |mem|
  {
    Patch(Patch(Patch(mem, p - HEAD, [MAGIC_BYTE]), p + l, [MAGIC_BYTE]), p - 4, ToLE(l, 4))
  }

  /** The three guard stores make a block and leave its payload alone. */
  lemma GuardsHold(mem: seq<byte>, s: seq<byte>, t: seq<byte>, u: seq<byte>, p: nat, l: nat)
    requires HEAD <= p && WORD < l <= MAX_BUF_LEN && p + l < |mem|
    requires Within(mem, s, p - HEAD, p - 4) && s[p - HEAD] == MAGIC_BYTE
    requires Within(s, t, p + l, p + l + 1) && t[p + l] == MAGIC_BYTE
    requires Within(t, u, p - 4, p) && u[p - 4..p] == ToLE(l, 4)
    ensures Block(u, p, l) && Within(mem, u, p - HEAD, p + l + 1) && u[p..p + l] == mem[p..p + l]
  {
    LoadStoredWidths(l);
  }

  lemma GuardedIsBlock(mem: seq<byte>, p: nat, l: nat)
    requires HEAD <= p && WORD < l <= MAX_BUF_LEN && p + l < |mem|
    ensures Block(Guarded(mem, p, l), p, l)
    ensures Within(mem, Guarded(mem, p, l), p - HEAD, p + l + 1)
    ensures Guarded(mem, p, l)[p..p + l] == mem[p..p + l]
  {
    hide Patch, Within, ToLE;
    var s := Patch(mem, p - HEAD, [MAGIC_BYTE]);
    var t := Patch(s, p + l, [MAGIC_BYTE]);
    var u := Patch(t, p - 4, ToLE(l, 4));
    PatchByte(mem, p - HEAD, MAGIC_BYTE);
    PatchByte(s, p + l, MAGIC_BYTE);
    PatchWithin(t, p - 4, ToLE(l, 4));
    PatchInside(t, p - 4, ToLE(l, 4));
    GuardsHold(mem, s, t, u, p, l);
  }

  lemma BlockKeeps(mem: seq<byte>, mem': seq<byte>, p: nat, l: nat, lo: nat, hi: nat)
    requires Block(mem, p, l) && Within(mem, mem', lo, hi)
    requires hi <= p - HEAD || p + l < lo || (p <= lo && hi <= p + l)
    ensures Block(mem', p, l)
  {
    assert mem'[p - 4..p] == mem[p - 4..p];
  }

  /** A change of memory that reaches no guard byte keeps every block. */
  lemma BlocksKeep(mem: seq<byte>, mem': seq<byte>, base: nat, live: Live, lo: nat, hi: nat)
    requires Blocks(mem, base, live) && Within(mem, mem', lo, hi)
    requires forall q :: q in live && !InTable(base, q) ==>
      hi <= q - HEAD || q + live[q] < lo || (q <= lo && hi <= q + live[q])
    ensures Blocks(mem', base, live)
  {
    forall q | q in live && !InTable(base, q)
      ensures Block(mem', q, live[q])
    {
      BlockKeeps(mem, mem', q, live[q], lo, hi);
    }
  }

  /** A block appears in a fresh region, in memory and in the map. */
  lemma LargeTaken(islots: seq<Slot>, bslots: seq<Slot>, mem: seq<byte>, base: nat, live: Live, home: map<nat, nat>,
                   j: nat, p: nat, l: nat, x: Slot)
    requires Layout(islots, bslots, mem, base, live, home) && WORD < l <= MAX_BUF_LEN && HEAD < p
    requires FreshRegion(mem, base, live, p - HEAD, HEAD + l + 1)
    requires j < MEM_BLOCKS_MAX_LEN && (bslots[j] == FREE || bslots[j] == LEAKED) && LargeSlot(x, p)
    ensures p !in live && !InTable(base, p)
    ensures var live', mem' := live[p := l], Guarded(mem, p, l);
      && Layout(islots, bslots[j := x], mem', base, live', home[p := j])
      && View(islots, mem', base, live') == View(islots, mem, base, live)[p := mem[p..p + l]]
  {
    hide Guarded, View;
    var live', mem' := live[p := l], Guarded(mem, p, l);
    GuardedIsBlock(mem, p, l);
    BlocksKeep(mem, mem', base, live, p - HEAD, p + l + 1);
    HomeTaken(bslots, base, live, home, j, p, l, x);
    LargeKeepsSmall(islots, base, live, live', p);
    assert Blocks(mem', base, live');
    LargeViewChanges(islots, mem, mem', base, live, live', p, p - HEAD, p + l + 1);
  }

  /** The map changes at a large pointer only, when memory does. */
  lemma LargeViewChanges(islots: seq<Slot>, mem: seq<byte>, mem': seq<byte>, base: nat, live: Live, live': Live,
                         p: nat, lo: nat, hi: nat)
    requires Blocks(mem, base, live) && Within(mem, mem', lo, hi) && SameBut(live, live', p) && !InTable(base, p)
    requires p in live' && p + live'[p] <= |mem|
    requires forall q :: q in live && q != p && !InTable(base, q) ==> hi <= q || q + live[q] <= lo
    ensures View(islots, mem', base, live') == View(islots, mem, base, live)[p := mem'[p..p + live'[p]]]
  {
    var v, v' := View(islots, mem, base, live), View(islots, mem', base, live');
    forall q | q != p
      ensures (q in v' <==> q in v) && (q in v ==> v'[q] == v[q])
    {
      if q in live && !InTable(base, q) { SameBytes(mem, mem', base, live, q, lo, hi); }
    }
    assert MapsAgree(v, v', p);
    MapUpdated(v, v', p, mem'[p..p + live'[p]]);
  }

  lemma SameBytes(mem: seq<byte>, mem': seq<byte>, base: nat, live: Live, q: nat, lo: nat, hi: nat)
    requires Blocks(mem, base, live) && Within(mem, mem', lo, hi) && q in live && !InTable(base, q)
    requires hi <= q || q + live[q] <= lo
    ensures q + live[q] < |mem| && mem'[q..q + live[q]] == mem[q..q + live[q]]
  {
    assert Block(mem, q, live[q]);
  }

  /** A block goes, from the table and from the map. */
  lemma LargeFreed(islots: seq<Slot>, bslots: seq<Slot>, mem: seq<byte>, base: nat, live: Live, home: map<nat,
                   nat>, p: nat)
    requires Layout(islots, bslots, mem, base, live, home) && p in live && !InTable(base, p)
    ensures p in home && home[p] < |bslots|
    ensures Layout(islots, bslots[home[p] := FREE], mem, base, live - {p}, home - {p})
    ensures View(islots, mem, base, live - {p}) == View(islots, mem, base, live) - {p}
  {
    HomeFreed(bslots, base, live, home, p);
    LargeKeepsSmall(islots, base, live, live - {p}, p);
    MapRemoved(View(islots, mem, base, live), View(islots, mem, base, live - {p}), p);
  }

  lemma LargeRewritten(islots: seq<Slot>, bslots: seq<Slot>, mem: seq<byte>, mem': seq<byte>, base: nat, live: Live,
                       home: map<nat, nat>, p: nat, lo: nat, hi: nat)
    requires Layout(islots, bslots, mem, base, live, home) && p in live && !InTable(base, p)
    requires Within(mem, mem', lo, hi) && p <= lo <= hi <= p + live[p]
    ensures p + live[p] < |mem| && p in View(islots, mem, base, live)
    ensures View(islots, mem, base, live)[p] == mem[p..p + live[p]]
    ensures Layout(islots, bslots, mem', base, live, home)
    ensures View(islots, mem', base, live) == View(islots, mem, base, live)[p := mem'[p..p + live[p]]]
  {
    assert Block(mem, p, live[p]);
    BlocksKeep(mem, mem', base, live, lo, hi);
    LargeViewChanges(islots, mem, mem', base, live, live, p, lo, hi);
  }

  /** A write into the payload of a large block. */
  lemma LargeWritten(islots: seq<Slot>, bslots: seq<Slot>, mem: seq<byte>, base: nat, live: Live, home: map<nat, nat>,
                     p: nat, pos: nat, data: seq<byte>)
    requires Layout(islots, bslots, mem, base, live, home) && p in live && !InTable(base, p)
    requires pos + |data| <= live[p]
    ensures p + live[p] < |mem|
    ensures var mem', v := Patch(mem, p + pos, data), View(islots, mem, base, live);
      && Layout(islots, bslots, mem', base, live, home)
      && p in v && |v[p]| == live[p] && View(islots, mem', base, live) == v[p := Patch(v[p], pos, data)]
  {
    hide *;
    LargeBounds(islots, bslots, mem, base, live, home, p);
    PayloadPatched(mem, p, live[p], pos, data);
    LargeRewritten(islots, bslots, mem, Patch(mem, p + pos, data), base, live, home, p, p + pos, p + pos + |data|);
  }

  lemma LargeBounds(islots: seq<Slot>, bslots: seq<Slot>, mem: seq<byte>, base: nat, live: Live, home: map<nat,
                    nat>, p: nat)
    requires Layout(islots, bslots, mem, base, live, home) && p in live && !InTable(base, p)
    ensures p + live[p] < |mem|
  {
    assert Block(mem, p, live[p]);
  }

  /** A write into the word of a small slot. */
  lemma SmallWritten(islots: seq<Slot>, mem: seq<byte>, base: nat, live: Live, i: nat, pos: nat, data: seq<byte>)
    requires SmallTable(islots, base, live) && i < MEM_BLOCKS_MAX_LEN && Ptr(base, i) in live
    requires pos + |data| <= live[Ptr(base, i)]
    ensures |islots[i].val| == WORD && live[Ptr(base, i)] <= WORD
    ensures var p, v, x := Ptr(base, i), View(islots, mem, base, live),
      islots[i].(val := Patch(islots[i].val, pos, data));
      && SmallTable(islots[i := x], base, live)
      && p in v && |v[p]| == live[p] && View(islots[i := x], mem, base, live) == v[p := Patch(v[p], pos, data)]
  {
    PtrInTable(base, i);
    var p := Ptr(base, i);
    var x := islots[i].(val := Patch(islots[i].val, pos, data));
    SmallChanges(islots, mem, base, live, live, i, x);
    assert x.val[..live[p]] == Patch(islots[i].val[..live[p]], pos, data);
  }
}
