/** safe-malloc-free.c: whole runs. A client's script of allocations, frees, writes and validity queries runs
    on the tables; a plain map, and a count of lost slots, replay it and answer alike. */
module SlotRun {
  import opened Bytes
  import opened Memory
  import opened Scripts
  import opened SlotTables
  import opened SlotSteps
  import opened SlotAllocator

  /** What a client does, with any pointers, positions and lengths. `sys` is what the system allocator
      answers, if asked. */
  datatype Op =
    | Allocate(l: nat, sys: nat)
    | Put(ptr: nat, pos: nat, data: seq<byte>)
    | Release(ptr: nat, dry: bool)
    | Query(ptr: nat, pos: nat, len: nat)

  /** What it sees. Astray: the code wrote behind a table, made an access out of bounds, or read memory that
      is not there; C promises nothing from there on. */
  datatype Seen = Got(ptr: nat, payload: seq<byte>) | Done(ok: bool) | Astray

  /** Positions and lengths are values of size_t. */
  predicate InRange(op: Op) {
    match op
    case Allocate(_, _) => true
    case Put(_, pos, data) => pos < U64 && |data| < U64
    case Release(_, _) => true
    case Query(_, pos, len) => pos < U64 && len < U64
  }

  predicate Fits(m: map<nat, seq<byte>>, ptr: nat, need: nat) {
    ptr in m && need <= |m[ptr]|
  }

  /** One operation on the plain state: a refused large allocation loses a slot. */
  function Apply(s: Plain, op: Op, r: Seen): Plain {
    match op
    case Allocate(l, _) =>
      if r.Got? && r.ptr != 0 then s.(m := s.m[r.ptr := r.payload])
      else if r.Got? && WORD < l <= MAX_BUF_LEN then s.(leaks := s.leaks + 1)
      else s
    case Put(ptr, pos, data) =>
      if Fits(s.m, ptr, pos + |data|) then s.(m := s.m[ptr := Patch(s.m[ptr], pos, data)]) else s
    case Release(ptr, dry) => if dry then s else s.(m := s.m - {ptr})
    case Query(_, _, _) => s
  }

  /** Memory that the system allocator may answer with; any other answer stands for NULL. */
  predicate Plausible(base: nat, size: nat, m: map<nat, seq<byte>>, b: nat, n: nat) {
    && 0 < b && b + n <= size && (b + n <= base || TableEnd(base) <= b)
    && forall q :: q in m && !InTable(base, q) ==> b + n + HEAD <= q || q + |m[q]| + 1 <= b
  }

  /** Every small slot is the home of a live pointer. */
  ghost predicate SmallFull(base: nat, m: map<nat, seq<byte>>) {
    forall i :: 0 <= i < MEM_BLOCKS_MAX_LEN ==> Ptr(base, i) in m
  }

  /** Live pointers and lost slots fill the large table. */
  predicate LargeFull(base: nat, s: Plain) {
    |Larges(base, s.m.Keys)| + s.leaks == MEM_BLOCKS_MAX_LEN
  }

  ghost predicate Fresh(s: Plain, l: nat, r: Seen) {
    r.Got? && r.ptr != 0 && r.ptr !in s.m && |r.payload| == l
  }

  /** A small request writes behind its table when that is full, and else gets the first slot that is not in
      use. A large one writes behind its table when live pointers and lost slots fill it; else it gets the
      block that the system delivered, or NULL when there was none. */
  ghost predicate AllocatePromised(base: nat, size: nat, s: Plain, l: nat, sys: nat, r: Seen) {
    if l == 0 || l > MAX_BUF_LEN then r == Got(0, [])
    else if l <= WORD then
      if SmallFull(base, s.m) then r == Astray
      else Fresh(s, l, r) && FirstFit(base, s.m.Keys, r.ptr) && r.payload == Fill(l)
    else if LargeFull(base, s) then r == Astray
    else if Plausible(base, size, s.m, sys, HEAD + l + 1) then Fresh(s, l, r) && r.ptr == sys + HEAD
    else r == Got(0, [])
  }

  /** UINTPTR_MAX, outside the small table. */
  predicate IsMax(base: nat, ptr: nat) {
    ptr == UINTPTR_MAX && !InTable(base, ptr)
  }

  /** What the plain state promises about one operation. A pointer that is not live is refused, wherever it
      points, but for UINTPTR_MAX: a free of it goes astray exactly when a slot is lost; whether an access
      through it does depends on the remembered slot. */
  ghost predicate Promised(base: nat, size: nat, s: Plain, op: Op, r: Seen) {
    match op
    case Allocate(l, sys) => AllocatePromised(base, size, s, l, sys, r)
    case Put(ptr, pos, data) =>
      if ptr in s.m then
        r == if pos + |data| <= |s.m[ptr]| then Done(true)
             else if pos + |data| >= U64 && pos + |data| - U64 <= |s.m[ptr]| then Astray
             else Done(false)
      else r == Done(false) || (r == Astray && IsMax(base, ptr))
    case Release(ptr, _) =>
      r == if ptr in s.m then Done(true) else if IsMax(base, ptr) && s.leaks > 0 then Astray else Done(false)
    case Query(ptr, pos, len) =>
      if ptr in s.m then r == Done((pos + len) % U64 <= |s.m[ptr]|)
      else r == Done(false) || (r == Astray && IsMax(base, ptr))
  }

  ghost function SlotRules(base: nat, size: nat, start: Plain): Rules<Plain, Op, Seen> {
    Rules(start, (s, op, r) => Apply(s, op, r), (s, op, r) => Promised(base, size, s, op, r))
  }

  /** The sizes and freshness seen in the map are those of the tables. */
  lemma MapSizes(a: Allocator)
    requires a.Valid()
    ensures forall q :: q in a.Map() <==> q in a.live
    ensures a.Map().Keys == a.live.Keys
    ensures forall q :: q in a.live ==> |a.Map()[q]| == a.live[q]
    ensures forall b, n :: Plausible(a.base, a.mem.Length, a.Map(), b, n) ==>
      b != 0 && FreshRegion(a.mem[..], a.base, a.live, b, n)
  {
    forall q | q in a.live
      ensures |a.Map()[q]| == a.live[q]
    {
      PayloadLength(a.ilist[..], a.blist[..], a.mem[..], a.base, a.live, a.home, q);
    }
  }

  /** An allocation on the script's behalf. */
  method Allot(a: Allocator, s: Plain, op: Op) returns (r: Seen)
    requires a.Valid() && a.State() == s && op.Allocate?
    modifies a, a.ilist, a.blist, a.mem
    ensures Promised(a.base, a.mem.Length, s, op, r) && LeaksStay(old(a.blist[..]), a.blist[..])
    ensures r != Astray ==> a.Valid() && a.State() == Apply(s, op, r)
  {
    hide Layout, View, FreshRegion, Plausible, Counted, FirstFit;
    MapSizes(a);
    var answer := if Plausible(a.base, a.mem.Length, s.m, op.sys, HEAD + op.l + 1) then op.sys else 0;
    var p := a.Malloc(op.l, answer);
    if p.Overrun? {
      return Astray;
    }
    r := Got(p.ptr, []);
    if p.ptr != 0 {
      MapSizes(a);
      var payload := a.Contents(p.ptr, op.l);
      r := Got(p.ptr, payload);
    }
  }

  /** One operation of the script. */
  method Perform(a: Allocator, s: Plain, op: Op) returns (r: Seen)
    requires a.Valid() && a.State() == s && InRange(op)
    modifies a, a.ilist, a.blist, a.mem
    ensures Promised(a.base, a.mem.Length, s, op, r) && LeaksStay(old(a.blist[..]), a.blist[..])
    ensures r != Astray ==> a.Valid() && a.State() == Apply(s, op, r)
  {
    hide Layout, View, FreshSearch, Plausible, Counted, AllocatePromised;
    MapSizes(a);
    match op
    case Allocate(_, _) =>
      r := Allot(a, s, op);
    case Put(ptr, pos, data) =>
      var o := a.Write(ptr, pos, data);
      r := if o == Outside then Astray else Done(o == Accepted);
    case Release(ptr, dry) =>
      var o := a.XFree(ptr, dry);
      r := if o == Outside then Astray else Done(o == Accepted);
    case Query(ptr, pos, len) =>
      var o := a.XptrValid(ptr, pos, len);
      r := if o == Outside then Astray else Done(o == Accepted);
  }

  /** Whole-run refinement: over every script, with frees, reuse of slots and addresses, and any history of
      the remembered index, every answer is one that the plain state promises, and lost slots stay lost. The
      run ends with the script, or where something goes astray. */
  method Run(a: Allocator, ops: seq<Op>, start: Plain) returns (trace: seq<Step<Op, Seen>>, s: Plain)
    requires a.Valid() && a.State() == start
    requires forall op :: op in ops ==> InRange(op)
    modifies a, a.ilist, a.blist, a.mem
    ensures Follows(trace, ops) && Kept(SlotRules(a.base, a.mem.Length, start), trace)
    ensures |trace| < |ops| ==> trace != [] && trace[|trace| - 1].seen == Astray
    ensures forall i :: 0 <= i < |trace| - 1 ==> trace[i].seen != Astray
    ensures (trace != [] ==> trace[|trace| - 1].seen != Astray) ==>
      a.Valid() && a.State() == s == Replay(SlotRules(a.base, a.mem.Length, start), trace)
    ensures LeaksStay(old(a.blist[..]), a.blist[..])
  {
    hide Layout, View, Promised, Apply, Replay, Kept, Counted;
    ghost var rules := SlotRules(a.base, a.mem.Length, start);
    trace, s := [], start;
    NothingYet(rules);
    for n := 0 to |ops|
      invariant a.Valid() && |trace| == n && Follows(trace, ops) && Kept(rules, trace)
      invariant a.State() == s == Replay(rules, trace)
      invariant forall i :: 0 <= i < n ==> trace[i].seen != Astray
      invariant LeaksStay(old(a.blist[..]), a.blist[..])
    {
      var r := Perform(a, s, ops[n]);
      KeptSnoc(rules, trace, Step(ops[n], r));
      trace := trace + [Step(ops[n], r)];
      if r == Astray {
        return;
      }
      s := Apply(s, ops[n], r);
    }
  }

  /** The homes of live pointers and the lost slots share the 64 slots of the large table. */
  lemma SlotsShared(a: Allocator)
    requires a.Valid()
    ensures |Larges(a.base, a.State().m.Keys)| + a.State().leaks <= MEM_BLOCKS_MAX_LEN
  {
    hide Layout, View;
    MapSizes(a);
  }

  // ---------------------------------------------------------------- a full table

  /** The first n small slots, and nothing else, are the homes of live pointers. */
  ghost predicate FirstSlots(base: nat, s: Plain, n: nat) {
    n <= MEM_BLOCKS_MAX_LEN && forall p :: p in s.m <==> exists i :: 0 <= i < n && p == Ptr(base, i)
  }

  lemma FirstFitIsNext(base: nat, s: Plain, n: nat, p: nat)
    requires FirstSlots(base, s, n) && FirstFit(base, s.m.Keys, p) && p !in s.m
    ensures n < MEM_BLOCKS_MAX_LEN && p == Ptr(base, n)
  {
    var i :| 0 <= i < MEM_BLOCKS_MAX_LEN && p == Ptr(base, i) && UsedBefore(base, s.m.Keys, i);
    assert n < i ==> Ptr(base, n) in s.m.Keys;
  }

  /** After n requests of one byte on fresh tables, the first n slots are in use. */
  lemma {:induction false} Filling(base: nat, size: nat, trace: seq<Step<Op, Seen>>)
    requires 0 < base && |trace| <= MEM_BLOCKS_MAX_LEN && Kept(SlotRules(base, size, Plain(map[], 0)), trace)
    requires forall i :: 0 <= i < |trace| ==> trace[i].op == Allocate(1, 0)
    ensures FirstSlots(base, Replay(SlotRules(base, size, Plain(map[], 0)), trace), |trace|)
    ensures forall i :: 0 <= i < |trace| ==> trace[i].seen == Got(Ptr(base, i), Fill(1))
  {
    hide Promised, Apply, FirstSlots, Fill;
    var rules := SlotRules(base, size, Plain(map[], 0));
    if trace == [] {
      NothingTaken(base, rules.start);
    } else {
      var n := |trace| - 1;
      var front, last := trace[..n], trace[n];
      KeptPrefix(rules, trace, n);
      Filling(base, size, front);
      var s := Replay(rules, front);
      assert rules.promised(s, last.op, last.seen);
      OneMore(base, size, s, n, last.seen);
      forall i | 0 <= i < n
        ensures trace[i].seen == Got(Ptr(base, i), Fill(1))
      {
        assert trace[i] == front[i];
      }
    }
  }

  lemma NothingTaken(base: nat, s: Plain)
    requires s.m == map[]
    ensures FirstSlots(base, s, 0)
  {
  }

  lemma OneMore(base: nat, size: nat, s: Plain, n: nat, r: Seen)
    requires 0 < base && n < MEM_BLOCKS_MAX_LEN && FirstSlots(base, s, n) && Promised(base, size, s, Allocate(1, 0), r)
    ensures r == Got(Ptr(base, n), Fill(1)) && FirstSlots(base, Apply(s, Allocate(1, 0), r), n + 1)
  {
    assert Ptr(base, n) !in s.m;
    assert !SmallFull(base, s.m);
    FirstFitIsNext(base, s, n, r.ptr);
  }

  /** 64 requests of one byte fill the small table, and the next one writes behind it. */
  lemma SixtyFifthOverruns(base: nat, size: nat, trace: seq<Step<Op, Seen>>)
    requires 0 < base && |trace| == MEM_BLOCKS_MAX_LEN + 1 && Kept(SlotRules(base, size, Plain(map[], 0)), trace)
    requires forall i :: 0 <= i < |trace| ==> trace[i].op == Allocate(1, 0)
    ensures forall i :: 0 <= i < MEM_BLOCKS_MAX_LEN ==> trace[i].seen == Got(Ptr(base, i), Fill(1))
    ensures trace[MEM_BLOCKS_MAX_LEN].seen == Astray
  {
    var rules, n := SlotRules(base, size, Plain(map[], 0)), MEM_BLOCKS_MAX_LEN;
    KeptPrefix(rules, trace, n);
    Filling(base, size, trace[..n]);
    forall i | 0 <= i < n
      ensures trace[i].seen == Got(Ptr(base, i), Fill(1))
    {
      assert trace[i] == trace[..n][i];
    }
    assert rules.promised(Replay(rules, trace[..n]), trace[n].op, trace[n].seen);
  }

  /** Every large request that the system refuses loses a slot. */
  lemma {:induction false} Losing(base: nat, size: nat, trace: seq<Step<Op, Seen>>)
    requires |trace| <= MEM_BLOCKS_MAX_LEN && Kept(SlotRules(base, size, Plain(map[], 0)), trace)
    requires forall i :: 0 <= i < |trace| ==>
      trace[i].op.Allocate? && WORD < trace[i].op.l <= MAX_BUF_LEN && trace[i].op.sys == 0
    ensures Replay(SlotRules(base, size, Plain(map[], 0)), trace) == Plain(map[], |trace|)
  {
    hide Apply, Promised;
    var rules := SlotRules(base, size, Plain(map[], 0));
    if trace != [] {
      var n := |trace| - 1;
      var last := trace[n];
      KeptPrefix(rules, trace, n);
      Losing(base, size, trace[..n]);
      assert rules.promised(Plain(map[], n), last.op, last.seen);
      OneLost(base, size, n, last.op, last.seen);
    }
  }

  lemma OneLost(base: nat, size: nat, n: nat, op: Op, r: Seen)
    requires op.Allocate? && WORD < op.l <= MAX_BUF_LEN && op.sys == 0
    requires n < MEM_BLOCKS_MAX_LEN && Promised(base, size, Plain(map[], n), op, r)
    ensures Apply(Plain(map[], n), op, r) == Plain(map[], n + 1)
  {
    assert Larges(base, Plain(map[], n).m.Keys) == {};
  }

  /** After 64 of them every large request writes behind the table, although no block is live. */
  lemma LostSlotsOverrun(base: nat, size: nat, trace: seq<Step<Op, Seen>>)
    requires |trace| == MEM_BLOCKS_MAX_LEN + 1 && Kept(SlotRules(base, size, Plain(map[], 0)), trace)
    requires forall i :: 0 <= i < |trace| ==> trace[i].op.Allocate? && WORD < trace[i].op.l <= MAX_BUF_LEN
    requires forall i :: 0 <= i < MEM_BLOCKS_MAX_LEN ==> trace[i].op.sys == 0
    ensures trace[MEM_BLOCKS_MAX_LEN].seen == Astray
  {
    hide Apply, Replay;
    var rules, n := SlotRules(base, size, Plain(map[], 0)), MEM_BLOCKS_MAX_LEN;
    KeptPrefix(rules, trace, n);
    Losing(base, size, trace[..n]);
    assert Larges(base, Plain(map[], n).m.Keys) == {};
    assert rules.promised(Replay(rules, trace[..n]), trace[n].op, trace[n].seen);
  }
}
