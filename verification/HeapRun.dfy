/** memalloc.cc: whole runs. A client's script runs on the guarded heap; a plain map replays it. */
module HeapRun {
  import opened Bytes
  import opened Memory
  import opened Scripts
  import opened HeapLayout
  import opened HeapPointers
  import opened GuardedHeap

  /** What a client does, with any pointers, positions and lengths. `sys` is what the system allocator
      answers, if asked. */
  datatype Op =
    | Allocate(l: nat, sys: nat)
    | Put(ptr: nat, pos: nat, data: seq<byte>)
    | Fetch(ptr: nat, pos: nat, len: nat)
    | Release(ptr: nat)

  /** What it sees: the pointer and the initial contents, the bytes read, or whether the call succeeded.
      Astray: the code accepted a pointer or an access that it should not have, or touched memory that is
      not there; C promises nothing from there on. */
  datatype Seen = Got(ptr: nat, payload: seq<byte>) | Bytes(d: seq<byte>) | Done(ok: bool) | Astray

  /** Positions and lengths are values of size_t. */
  predicate InRange(op: Op) {
    (op.Put? ==> op.pos < U64 && |op.data| < U64) && (op.Fetch? ==> op.pos < U64 && op.len < U64)
  }

  predicate Fits(m: map<nat, seq<byte>>, ptr: nat, need: nat) {
    ptr in m && need <= |m[ptr]|
  }

  /** One operation on the plain state. A block that the system put below the slots is not part of it. */
  function Apply(g: Geometry, s: Plain, op: Op, r: Seen): Plain {
    match op
    case Allocate(l, _) =>
      if !r.Got? || r.ptr < g.start then s
      else if l <= WORD then
        var next := (r.ptr - g.start) / ENTRY_LEN + 1;
        s.(m := s.m[r.ptr := r.payload], cursor := if next == g.count then 0 else next)
      else s.(m := s.m[r.ptr := r.payload], top := if r.ptr + l > s.top then r.ptr + l else s.top)
    case Put(ptr, pos, data) =>
      if Fits(s.m, ptr, pos + |data|) then s.(m := s.m[ptr := Patch(s.m[ptr], pos, data)]) else s
    case Fetch(_, _, _) => s
    case Release(ptr) => s.(m := s.m - {ptr})
  }

  /** Memory that the system allocator may answer with; any other answer stands for NULL. */
  predicate Plausible(g: Geometry, size: nat, m: map<nat, seq<byte>>, b: nat, n: nat) {
    && 0 < b && b + n <= size
    && (b + n <= g.start
        || (g.End() <= b && forall q :: q in m && q >= g.End() ==> b + n + HEADER <= q || q + |m[q]| + 1 <= b))
  }

  /** An allocation fails when the size is out of range, every slot is in use, or the system has no
      memory; and for no other reason. */
  predicate Fails(g: Geometry, size: nat, m: map<nat, seq<byte>>, l: nat, sys: nat) {
    || l == 0 || l > MAX_BUF_LEN
    || if l <= WORD then forall i :: 0 <= i < g.count ==> g.Ptr(i) in m
       else !Plausible(g, size, m, sys, ENTRY_LEN + l)
  }

  /** The pointer is that of the free slot that lies the fewest steps ahead of the cursor. */
  ghost predicate NextFit(g: Geometry, s: Plain, ptr: nat) {
    s.cursor < g.count && exists j :: 0 <= j < g.count && ptr == g.Ptr(j) && Nearest(g, s, j)
  }

  ghost predicate Nearest(g: Geometry, s: Plain, j: nat)
    requires s.cursor < g.count && j < g.count
  {
    forall i :: 0 <= i < g.count && g.Ptr(i) !in s.m ==> Ahead(g.count, s.cursor, j) <= Ahead(g.count, s.cursor, i)
  }

  ghost predicate AllocatePromised(g: Geometry, size: nat, s: Plain, l: nat, sys: nat, r: Seen) {
    && r.Got? && (r.ptr == 0 <==> Fails(g, size, s.m, l, sys))
    && (r.ptr != 0 ==>
         && r.ptr !in s.m && |r.payload| == l && r.payload[0] == ZERO_BYTE
         && (if l <= WORD then NextFit(g, s, r.ptr) else r.ptr == sys + HEADER)
         && forall q :: q in s.m ==> q + |s.m[q]| <= r.ptr || r.ptr + l <= q)
  }

  /** An access of n bytes is made exactly when it is in bounds of a live payload, and goes astray exactly
      when the sum of position and length wraps to a value within it. A pointer that is not live is
      refused when it is NULL, out of range, freed from the slots or below them; the bytes of memory
      decide about any other. */
  predicate AccessPromised(g: Geometry, s: Plain, ptr: nat, pos: nat, n: nat, made: Seen, r: Seen) {
    if ptr in s.m then
      r == if pos + n <= |s.m[ptr]| then made
           else if pos + n >= U64 && pos + n - U64 <= |s.m[ptr]| then Astray
           else Done(false)
    else r == Done(false) || (r == Astray && !Refusable(g, s.top, ptr))
  }

  /** What the plain state promises about one operation, on a heap of geometry g in a memory of `size`
      bytes. */
  ghost predicate Promised(g: Geometry, size: nat, s: Plain, op: Op, r: Seen) {
    match op
    case Allocate(l, sys) => AllocatePromised(g, size, s, l, sys, r)
    case Put(ptr, pos, data) => AccessPromised(g, s, ptr, pos, |data|, Done(true), r)
    case Fetch(ptr, pos, len) =>
      AccessPromised(g, s, ptr, pos, len, Bytes(if Fits(s.m, ptr, pos + len) then s.m[ptr][pos..pos + len] else []), r)
    case Release(ptr) =>
      if ptr in s.m then r == Done(true) else r == Done(false) || (r == Astray && !Refusable(g, s.top, ptr))
  }

  ghost function HeapRules(g: Geometry, size: nat, start: Plain): Rules<Plain, Op, Seen> {
    Rules(start, (s, op, r) => Apply(g, s, op, r), (s, op, r) => Promised(g, size, s, op, r))
  }

  /** The sizes and freshness seen in the map are those of the heap. */
  lemma MapSizes(h: Heap)
    requires h.Valid()
    ensures h.Placed()
    ensures forall q :: q in h.Map() <==> q in h.live
    ensures forall q :: q in h.live ==> |h.Map()[q]| == h.live[q]
    ensures forall b, n :: Plausible(h.geo, h.mem.Length, h.Map(), b, n) ==> h.SystemRegion(b, n) && b != 0
  {
    var s, live := h.mem[..], h.live;
    LayoutInBounds(s, h.geo, live);
    forall q | q in live
      ensures q in View(s, live) && |View(s, live)[q]| == live[q]
    {
      ViewAt(s, live, q);
    }
  }

  /** A new payload overlaps none of those that were in the map. */
  lemma NewPayloadApart(s: seq<byte>, g: Geometry, live: Live, m: map<nat, seq<byte>>, p: nat, l: nat)
    requires Layout(s, g, live[p := l]) && p !in live
    requires forall q :: q in m ==> q in live && |m[q]| == live[q]
    ensures forall q :: q in m ==> q + |m[q]| <= p || p + l <= q
  {
    hide Layout;
    var live' := live[p := l];
    forall q | q in m
      ensures q + |m[q]| <= p || p + l <= q
    {
      assert q in live' && live'[q] == |m[q]|;
      if q < p { PayloadsDisjoint(s, g, live', q, p); } else { PayloadsDisjoint(s, g, live', p, q); }
    }
  }

  lemma AboveStart(s: seq<byte>, g: Geometry, live: Live)
    requires Layout(s, g, live)
    ensures forall q :: q in live ==> g.start < q
  {
    forall q | q in live
      ensures g.start < q
    {
      LiveBounds(s, g, live, q);
    }
  }

  /** An allocation on the script's behalf. */
  method Allot(h: Heap, s: Plain, op: Op) returns (r: Seen)
    requires h.Valid() && h.State() == s && op.Allocate?
    modifies h, h.mem
    ensures h.Valid() && Promised(h.geo, h.mem.Length, s, op, r) && h.State() == Apply(h.geo, s, op, r)
  {
    hide Layout, View, Ahead, FreshRegion, Plausible, Heap.SystemRegion;
    MapSizes(h);
    AboveStart(h.mem[..], h.geo, h.live);
    var answer := if Plausible(h.geo, h.mem.Length, s.m, op.sys, ENTRY_LEN + op.l) then op.sys else 0;
    ghost var live := h.live;
    assert forall i :: h.InUse(i) == (h.geo.Ptr(i) in s.m);
    ghost var j;
    var p;
    p, j := h.Malloc(op.l, answer);
    r := Got(p, []);
    LayoutGeometry(h.mem[..], h.geo, h.live);
    if p != 0 {
      assert op.l <= WORD ==> (p - h.geo.start) / ENTRY_LEN == j;
      r := Got(p, h.mem[p..p + op.l]);
      if p >= h.geo.start {
        NewPayloadApart(h.mem[..], h.geo, live, s.m, p, op.l);
      }
    }
  }

  /** One operation of the script. Through a pointer that is not live it goes astray exactly when the bytes
      around the pointer pass the tests. */
  method Perform(h: Heap, s: Plain, op: Op) returns (r: Seen)
    requires h.Valid() && h.State() == s && InRange(op)
    modifies h, h.mem
    ensures Promised(h.geo, h.mem.Length, s, op, r)
    ensures r != Astray ==> h.Valid() && h.State() == Apply(h.geo, s, op, r)
    ensures op.Release? && op.ptr !in s.m ==> (r == Astray <==> PassesFree(old(h.mem[..]), h.geo, s.top, op.ptr))
    ensures op.Put? && op.ptr !in s.m ==>
      (r == Astray <==> Passes(old(h.mem[..]), h.geo, s.top, op.ptr, (op.pos + |op.data|) % U64))
    ensures op.Fetch? && op.ptr !in s.m ==>
      (r == Astray <==> Passes(old(h.mem[..]), h.geo, s.top, op.ptr, (op.pos + op.len) % U64))
  {
    hide Layout, View, AllocatePromised, Frees, RunsOff, Passes, Patch;
    MapSizes(h);
    match op
    case Allocate(_, _) =>
      r := Allot(h, s, op);
    case Put(ptr, pos, data) =>
      var o := h.Write(ptr, pos, data);
      r := if o == Refused then Done(false) else if Fits(s.m, ptr, pos + |data|) then Done(true) else Astray;
    case Fetch(ptr, pos, len) =>
      var o, d := h.Read(ptr, pos, len);
      r := if o == Refused then Done(false) else if Fits(s.m, ptr, pos + len) then Bytes(d) else Astray;
    case Release(ptr) =>
      var o := h.Free(ptr);
      r := if o == Refused then Done(false) else if ptr in s.m then Done(true) else Astray;
  }

  /** Whole-run refinement: whatever a client does, every answer is the one that the plain state promises
      at that point, and as long as nothing went astray the heap stands for the plain state. The run ends
      with the script, or where something goes astray. */
  method Run(h: Heap, ops: seq<Op>, start: Plain) returns (trace: seq<Step<Op, Seen>>, s: Plain)
    requires h.Valid() && h.State() == start
    requires forall op :: op in ops ==> InRange(op)
    modifies h, h.mem
    ensures Follows(trace, ops) && Kept(HeapRules(h.geo, h.mem.Length, start), trace)
    ensures |trace| < |ops| ==> trace != [] && trace[|trace| - 1].seen == Astray
    ensures forall i :: 0 <= i < |trace| - 1 ==> trace[i].seen != Astray
    ensures (trace != [] ==> trace[|trace| - 1].seen != Astray) ==>
      h.Valid() && h.State() == s == Replay(HeapRules(h.geo, h.mem.Length, start), trace)
  {
    hide Layout, View, Promised, Apply, Replay, Kept;
    ghost var rules := HeapRules(h.geo, h.mem.Length, start);
    trace, s := [], start;
    NothingYet(rules);
    for n := 0 to |ops|
      invariant h.Valid() && |trace| == n && Follows(trace, ops) && Kept(rules, trace)
      invariant h.State() == s == Replay(rules, trace)
      invariant forall i :: 0 <= i < n ==> trace[i].seen != Astray
    {
      var r := Perform(h, s, ops[n]);
      KeptSnoc(rules, trace, Step(ops[n], r));
      trace := trace + [Step(ops[n], r)];
      if r == Astray {
        return;
      }
      s := Apply(h.geo, s, ops[n], r);
    }
  }

  /** Operations that cannot go astray: allocations, and accesses and frees through a pointer that is live or
      refused for certain, when the sum of position and length does not wrap into the payload. */
  predicate Safe(g: Geometry, s: Plain, op: Op) {
    match op
    case Allocate(_, _) => true
    case Put(ptr, pos, data) => SafeAccess(g, s, ptr, pos, |data|)
    case Fetch(ptr, pos, len) => SafeAccess(g, s, ptr, pos, len)
    case Release(ptr) => ptr in s.m || Refusable(g, s.top, ptr)
  }

  predicate SafeAccess(g: Geometry, s: Plain, ptr: nat, pos: nat, n: nat) {
    if ptr in s.m then pos + n < U64 || pos + n - U64 > |s.m[ptr]| else Refusable(g, s.top, ptr)
  }

  /** A script of such operations runs to its end. */
  lemma SafeRunsThrough(g: Geometry, size: nat, start: Plain, trace: seq<Step<Op, Seen>>)
    requires Kept(HeapRules(g, size, start), trace)
    requires forall i :: 0 <= i < |trace| ==> Safe(g, Replay(HeapRules(g, size, start), trace[..i]), trace[i].op)
    ensures forall i :: 0 <= i < |trace| ==> trace[i].seen != Astray
  {
    hide Replay;
    var rules := HeapRules(g, size, start);
    forall i | 0 <= i < |trace|
      ensures trace[i].seen != Astray
    {
      var s := Replay(rules, trace[..i]);
      assert rules.promised(s, trace[i].op, trace[i].seen);
      assert Promised(g, size, s, trace[i].op, trace[i].seen) && Safe(g, s, trace[i].op);
    }
  }

  /** Next fit is not first fit: on a fresh heap of at least two slots, one byte allocated, freed and allocated
      again takes the second slot. */
  lemma MovesOn(g: Geometry, size: nat, trace: seq<Step<Op, Seen>>)
    requires HEADER < g.start && g.count >= 2 && |trace| == 3
    requires Kept(HeapRules(g, size, Plain(map[], g.End(), 0)), trace)
    requires trace[0].op == trace[2].op == Allocate(1, 0) && trace[1].op == Release(g.Ptr(0))
    ensures trace[0].seen.Got? && trace[0].seen.ptr == g.Ptr(0)
    ensures trace[2].seen.Got? && trace[2].seen.ptr == g.Ptr(1)
  {
    hide Promised, Apply, Replay;
    var start := Plain(map[], g.End(), 0);
    var rules := HeapRules(g, size, start);
    NothingYet(rules);
    assert trace[..0] == [] && trace[..1] == [] + [trace[0]] && trace[..2] == trace[..1] + [trace[1]];
    ReplaySnoc(rules, [], trace[0]);
    ReplaySnoc(rules, trace[..1], trace[1]);
    assert rules.promised(Replay(rules, trace[..0]), trace[0].op, trace[0].seen);
    assert rules.promised(Replay(rules, trace[..1]), trace[1].op, trace[1].seen);
    assert rules.promised(Replay(rules, trace[..2]), trace[2].op, trace[2].seen);
    TakenAtCursor(g, size, start, trace[0].seen);
    var one := Apply(g, start, trace[0].op, trace[0].seen);
    FreedAgain(g, size, one, trace[1].seen);
    TakenAtCursor(g, size, Apply(g, one, trace[1].op, trace[1].seen), trace[2].seen);
  }

  /** With an empty map the slot at the cursor is taken. */
  lemma TakenAtCursor(g: Geometry, size: nat, s: Plain, r: Seen)
    requires HEADER < g.start && s.m == map[] && s.cursor < g.count && Promised(g, size, s, Allocate(1, 0), r)
    ensures r.Got? && r.ptr == g.Ptr(s.cursor)
    ensures var s' := Apply(g, s, Allocate(1, 0), r);
      s'.m.Keys == {r.ptr} && s'.top == s.top && s'.cursor == if s.cursor + 1 == g.count then 0 else s.cursor + 1
  {
    assert g.Ptr(s.cursor) !in s.m;
    assert !Fails(g, size, s.m, 1, 0);
    var j :| 0 <= j < g.count && r.ptr == g.Ptr(j) && Nearest(g, s, j);
    assert Ahead(g.count, s.cursor, j) <= Ahead(g.count, s.cursor, s.cursor) == 0;
  }

  lemma FreedAgain(g: Geometry, size: nat, s: Plain, r: Seen)
    requires s.m.Keys == {g.Ptr(0)} && Promised(g, size, s, Release(g.Ptr(0)), r)
    ensures var s' := Apply(g, s, Release(g.Ptr(0)), r); s'.m == map[] && s'.cursor == s.cursor
  {
    assert (s.m - {g.Ptr(0)}).Keys == {};
  }
}
