/** memalloc.cc: what the bytes in front of and behind a pointer say about it, as _free and xptr_valid read
    them, for every pointer whatever. */
module HeapPointers {
  import opened Bytes
  import opened Memory
  import opened HeapLayout
  import opened HeapSteps

  /** The fields in front of p announce a slot payload of l bytes. */
  ghost predicate SmallHead(s: seq<byte>, p: nat, l: nat) {
    && 4 <= p <= |s| && s[p - 4] == MAGIC_BYTE && s[p - 3] == 0
    && FromLE(s[p - 2..p]) == l && 0 < l <= WORD
  }

  /** The fields in front of p announce a large payload of l bytes. */
  ghost predicate LargeHead(s: seq<byte>, p: nat, l: nat) {
    && HEADER <= p <= |s| && s[p - 12] == MAGIC_BYTE && s[p - 11] == 0
    && FromLE(s[p - 10..p - 8]) == l && FromLE(s[p - 8..p]) == p && 0 < l <= MAX_BUF_LEN
  }

  /** Where the closing guard byte of a payload at p stands. */
  function Canary(g: Geometry, p: nat, l: nat): nat {
    if p < g.End() then p + WORD else p + l
  }

  ghost predicate Head(s: seq<byte>, g: Geometry, top: nat, p: nat, l: nat) {
    if g.start < p < g.End() then SmallHead(s, p, l) else g.End() <= p < top && LargeHead(s, p, l)
  }

  /** Header and canary announce a payload of l bytes at p. `top` is the highest canary address so far. */
  ghost predicate Looks(s: seq<byte>, g: Geometry, top: nat, p: nat, l: nat) {
    Head(s, g, top, p, l) && Canary(g, p, l) < |s| && s[Canary(g, p, l)] == MAGIC_BYTE
  }

  /** The header sends the test of the canary to an address behind all memory. */
  ghost predicate RunsOff(s: seq<byte>, g: Geometry, top: nat, p: nat, l: nat) {
    Head(s, g, top, p, l) && Canary(g, p, l) >= |s|
  }

  /** The bytes of a slot payload behind the first l still hold the fill value. */
  ghost predicate Intact(s: seq<byte>, p: nat, l: nat) {
    p + WORD <= |s| && forall k :: p + l <= k < p + WORD ==> s[k] == ZERO_BYTE
  }

  /** What _free accepts. */
  ghost predicate Frees(s: seq<byte>, g: Geometry, top: nat, p: nat) {
    exists l :: Looks(s, g, top, p, l) && (p < g.End() ==> Intact(s, p, l))
  }

  /** What xptr_valid accepts for an access of n bytes. */
  ghost predicate Admits(s: seq<byte>, g: Geometry, top: nat, p: nat, n: nat) {
    exists l :: Looks(s, g, top, p, l) && n <= l
  }

  /** What xptr_valid does not refuse: it accepts, or it reads behind all memory. */
  ghost predicate Passes(s: seq<byte>, g: Geometry, top: nat, p: nat, n: nat) {
    Admits(s, g, top, p, n) || exists l :: RunsOff(s, g, top, p, l) && n <= l
  }

  /** What _free does not refuse. */
  ghost predicate PassesFree(s: seq<byte>, g: Geometry, top: nat, p: nat) {
    Frees(s, g, top, p) || exists l :: RunsOff(s, g, top, p, l)
  }

  /** A pointer at which a slot payload would begin. */
  predicate SlotPtr(g: Geometry, p: nat) {
    g.start + 4 <= p < g.End() && (p - 4 - g.start) % ENTRY_LEN == 0
  }

  /** A pointer that is refused for certain unless it is live: NULL, out of range, or where a slot
      payload would begin, which covers every pointer freed from the slots. */
  predicate Refusable(g: Geometry, top: nat, p: nat) {
    p <= g.start || top <= p || SlotPtr(g, p)
  }

  lemma LooksHead(s: seq<byte>, g: Geometry, top: nat, p: nat)
    ensures forall l :: Looks(s, g, top, p, l) || RunsOff(s, g, top, p, l) ==> Head(s, g, top, p, l)
  {
  }

  lemma LooksSmall(s: seq<byte>, g: Geometry, top: nat, p: nat, l: nat)
    requires Looks(s, g, top, p, l) && g.start < p < g.End()
    ensures 0 < l <= WORD && p + WORD < |s|
  {
  }

  /** A live pointer passes every test, with its own size and no other. */
  lemma LivePasses(s: seq<byte>, g: Geometry, top: nat, live: Live, p: nat)
    requires Layout(s, g, live) && p in live && (p >= g.End() ==> p < top)
    ensures Looks(s, g, top, p, live[p]) && (p < g.End() ==> Intact(s, p, live[p]))
    ensures forall l :: Head(s, g, top, p, l) ==> l == live[p]
  {
    LiveBounds(s, g, live, p);
    if p < g.End() {
      SmallLive(s, g, live, p);
    } else {
      LargeLive(s, g, live, p);
    }
  }

  /** A refusable pointer that is not live has no header. */
  lemma RefusedForCertain(s: seq<byte>, g: Geometry, top: nat, live: Live, p: nat)
    requires Layout(s, g, live) && p !in live && g.End() <= top && Refusable(g, top, p)
    ensures forall l :: !Head(s, g, top, p, l)
  {
    hide Layout;
    LayoutGeometry(s, g, live);
    if SlotPtr(g, p) {
      SlotState(s, g, live, p);
      assert s[p - 3] == ZERO_BYTE;
    }
  }

  /** The bytes of a forged block with payload at p. */
  function Forged(p: nat, l: nat): (r: seq<byte>)
    ensures |r| == HEADER + l + 1
  {
    [MAGIC_BYTE, 0] + ToLE(l, 2) + ToLE(p, WORD) + Fill(l) + [MAGIC_BYTE]
  }

  lemma ForgedLooks(s: seq<byte>, g: Geometry, top: nat, o: nat, l: nat)
    requires o + HEADER + l + 1 <= |s| <= U64 && 0 < l <= MAX_BUF_LEN && g.End() <= o + HEADER < top
    ensures Looks(Patch(s, o, Forged(o + HEADER, l)), g, top, o + HEADER, l)
  {
    hide Patch, ToLE, FromLE, Fill;
    var p, d := o + HEADER, Forged(o + HEADER, l);
    var s' := Patch(s, o, d);
    PatchInside(s, o, d);
    PartOf(s', o, d, 0, 2);
    PartOf(s', o, d, 2, 4);
    PartOf(s', o, d, 4, 12);
    PartOf(s', o, d, HEADER + l, HEADER + l + 1);
    assert d[0..2] == [MAGIC_BYTE, 0] && d[2..4] == ToLE(l, 2) && d[4..12] == ToLE(p, WORD);
    assert d[HEADER + l..HEADER + l + 1] == [MAGIC_BYTE];
    assert s'[o + 0..o + 2][0] == s'[p - 12] && s'[o + 0..o + 2][1] == s'[p - 11];
    assert s'[o + (HEADER + l)..o + (HEADER + l + 1)][0] == s'[p + l];
    LoadStoredWidths(l);
    LoadStoredWidths(p);
  }

  lemma NotInside(s: seq<byte>, g: Geometry, live: Live, p: nat, q: nat)
    requires Layout(s, g, live) && p in live && p < q < p + live[p]
    ensures q !in live
  {
    if q in live {
      PayloadsDisjoint(s, g, live, p, q);
    }
  }

  /** Pointers that were never handed out can pass every test: an in-bounds write of a large payload leaves
      the heap as it should be, and the pointer forged inside the payload is accepted. */
  lemma ForgedPointer(s: seq<byte>, g: Geometry, top: nat, live: Live, p: nat, l: nat)
    requires Layout(s, g, live) && p in live && p >= g.End() && p + live[p] <= top
    requires 0 < l && HEADER + l + 1 <= live[p]
    ensures p + HEADER + l + 1 <= |s|
    ensures var s', q := Patch(s, p, Forged(p + HEADER, l)), p + HEADER;
      Layout(s', g, live) && q !in live && Looks(s', g, top, q, l) && Frees(s', g, top, q)
  {
    LiveBounds(s, g, live, p);
    var q, d := p + HEADER, Forged(p + HEADER, l);
    PatchWithin(s, p, d);
    WriteRefines(s, Patch(s, p, d), g, live, p, p, p + |d|);
    NotInside(s, g, live, p, q);
    ForgedLooks(s, g, top, p, l);
  }

  /** Byte k guards the payload of l bytes at p: the first two bytes and the canary, the fill bytes of a slot,
      and the self pointer of a large block. */
  predicate GuardByte(g: Geometry, p: nat, l: nat, k: nat) {
    if p < g.End() then k + 4 == p || k + 3 == p || p + l <= k <= p + WORD
    else k + 12 == p || k + 11 == p || k < p <= k + 8 || k == p + l
  }

  /** What the guards are for: when one of these bytes has been changed, for instance by a write just behind
      the payload, _free refuses the pointer. */
  lemma DamageDetected(s: seq<byte>, g: Geometry, top: nat, live: Live, p: nat, k: nat, x: byte)
    requires Layout(s, g, live) && p in live && k < |s|
    requires GuardByte(g, p, live[p], k) && x != s[k]
    ensures !Frees(Patch(s, k, [x]), g, top, p)
  {
    hide Layout, Patch;
    LiveBounds(s, g, live, p);
    LayoutGeometry(s, g, live);
    PatchByte(s, k, x);
    var s' := Patch(s, k, [x]);
    if p < g.End() {
      SmallLive(s, g, live, p);
      assert s'[p - 2..p] == s[p - 2..p];
    } else {
      LargeLive(s, g, live, p);
      assert s'[p - 10..p - 8] == s[p - 10..p - 8];
      if k < p <= k + 8 {
        var a, b := s[p - 8..p], s'[p - 8..p];
        assert a[k - (p - 8)] != b[k - (p - 8)];
        DifferentBytes(a, b);
      }
    }
  }

  lemma DifferentBytes(a: seq<byte>, b: seq<byte>)
    requires |a| == |b| && a != b
    ensures FromLE(a) != FromLE(b)
  {
    StoreLoaded(a);
    StoreLoaded(b);
  }

  /** The sum of position and length wraps: exactly then an access out of bounds passes the size test. */
  lemma WrapAdmits(l: nat, pos: nat, n: nat)
    requires l < U64 && pos < U64 && n < U64
    ensures (pos + n) % U64 <= l && pos + n > l <==> pos + n >= U64 && pos + n - U64 <= l
  {
  }

  /** One byte at position 2^64 - 1 is such an access: it falls on the byte in front of the payload. */
  lemma WrapsBefore(p: nat)
    requires 0 < p <= U64
    ensures (U64 - 1 + 1) % U64 == 0 && (p + (U64 - 1)) % U64 == p - 1
  {
  }

  /** It changes the self pointer or the size of the block: unless the byte was the same, the live pointer
      fails every test from then on and can never be freed. */
  lemma WrappedWriteLosesBlock(s: seq<byte>, g: Geometry, top: nat, live: Live, p: nat, x: byte)
    requires Layout(s, g, live) && p in live && x != s[p - 1]
    ensures var s' := Patch(s, p - 1, [x]);
      (forall l :: !Head(s', g, top, p, l)) && !Frees(s', g, top, p) && forall n :: !Admits(s', g, top, p, n)
  {
    LiveBounds(s, g, live, p);
    var s' := Patch(s, p - 1, [x]);
    if p < g.End() {
      SmallLive(s, g, live, p);
      SizeOf(s, p);
      SizeOf(s', p);
      assert s'[p - 2] == s[p - 2];
    } else {
      LargeLive(s, g, live, p);
      var a, b := s[p - 8..p], s'[p - 8..p];
      assert a[7] == s[p - 1] && b[7] == x;
      DifferentBytes(a, b);
    }
  }

  lemma SizeOf(s: seq<byte>, p: nat)
    requires 2 <= p <= |s|
    ensures FromLE(s[p - 2..p]) == (s[p - 2] as int) + 256 * (s[p - 1] as int)
  {
    assert s[p - 2..p][1..] == [s[p - 1]];
    assert FromLE([s[p - 1]]) == s[p - 1];
  }
}
