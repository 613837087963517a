/** can_scoket1.c: what the ring and the receiver's variables look like in terms of the message history. */
module ImuRing {
  import opened Options
  import opened Arithmetic
  import opened CanFrames
  import opened ImuHistory

  /** Ring position of offset i behind ring position `fetch`. */
  function At(fetch: nat, i: nat, cap: nat): (p: nat)
    requires cap > 0
    ensures p < cap
  {
    (fetch + i) % cap
  }

  /** Ring position of the record in front of position `fetch`. */
  function InFront(k: Link, fetch: int): int {
    if fetch <= 0 then (MAX_IMU_NUM - 1) * k.size else fetch - k.size
  }

  /** The body b, or its last turn, stands in the ring behind position `fetch`. */
  ghost predicate BodyIn(ring: seq<octet>, b: seq<octet>, fetch: nat, cap: nat) {
    0 < cap <= |ring| && forall i :: 0 <= i < |b| && |b| - cap <= i ==> ring[At(fetch, i, cap)] == b[i]
  }

  /** ring' is ring with d stored at position s. */
  ghost predicate Stored(ring: seq<octet>, ring': seq<octet>, s: nat, d: seq<octet>) {
    && |ring'| == |ring| && s + |d| <= |ring|
    && (forall j :: 0 <= j < |ring| && !(s <= j < s + |d|) ==> ring'[j] == ring[j])
    && (forall j :: s <= j < s + |d| ==> ring'[j] == d[j - s])
  }

  /** The body behind the most recent header: being received, or accepted since. */
  function Newest(h: History): seq<octet> {
    if h.cur.Some? then h.cur.value else if Moved(h) then h.bodies[|h.bodies| - 1] else []
  }

  /** The receiver's variables and ring represent history h. */
  ghost predicate Shows(k: Link, h: History, ring: seq<octet>, fetch: int, store: int, ready: bool)
    requires k.Valid()
  {
    && |ring| >= k.Capacity() && |h.place| == k.size && ready == h.lapped
    && (h.cur.Some? ==> |h.cur.value| % 8 == 0 && h.marked == Some(|h.bodies|))
    && (forall n :: 0 <= n < |h.bodies| ==> k.size <= |h.bodies[n]|)
    && (h.marked.None? ==> fetch == -1 && store == 0 && h.bodies == [])
    && (h.marked.Some? ==>
         && h.marked.value <= |h.bodies| <= h.marked.value + 1
         && 0 <= fetch < k.Capacity() && fetch == |Flatten(h.bodies[..h.marked.value])| % k.Capacity()
         && store == At(fetch, |Newest(h)|, k.Capacity())
         && BodyIn(ring, Newest(h), fetch, k.Capacity()))
    && 0 <= InFront(k, fetch) && InFront(k, fetch) + k.size <= |ring|
    && ring[InFront(k, fetch)..InFront(k, fetch) + k.size] == h.place
  }

  // ---------------------------------------------------------------- headers

  /** The end of a body of at least one record stands in front of the store position. */
  lemma EndInFront(k: Link, ring: seq<octet>, b: seq<octet>, fetch: nat, store: nat)
    requires k.Valid() && BodyIn(ring, b, fetch, k.Capacity()) && k.size <= |b|
    requires store == At(fetch, |b|, k.Capacity()) && store % k.size == 0
    ensures var p := InFront(k, store);
      0 <= p && p + k.size <= |ring| && ring[p..p + k.size] == b[|b| - k.size..]
  {
    var cap, p, e := k.Capacity(), InFront(k, store), b[|b| - k.size..];
    MultipleBelow(store, k.size, MAX_IMU_NUM);
    forall j | 0 <= j < k.size
      ensures ring[p + j] == e[j]
    {
      var i := |b| - k.size + j;
      ModStep(fetch + i, k.size - j, cap);
      assert fetch + |b| == fetch + i + (k.size - j);
      assert At(fetch, i, cap) == p + j;
      assert ring[At(fetch, i, cap)] == b[i];
    }
  }

  /** The stream position of the newest body's end. */
  lemma EndPosition(k: Link, h: History, ring: seq<octet>, fetch: int, store: int, ready: bool)
    requires k.Valid() && Shows(k, h, ring, fetch, store, ready) && h.cur.None? && h.marked.Some?
    ensures store == |Flatten(h.bodies)| % k.Capacity()
  {
    var n := |Flatten(h.bodies[..h.marked.value])|;
    if Moved(h) {
      assert h.bodies[..|h.bodies| - 1] == h.bodies[..h.marked.value];
      assert |Flatten(h.bodies)| == n + |Newest(h)|;
    } else {
      assert h.bodies[..h.marked.value] == h.bodies;
    }
    ModAdd(n, |Newest(h)|, k.Capacity());
    ModAdd(fetch, |Newest(h)|, k.Capacity());
    ModSmall(fetch, k.Capacity());
  }

  lemma HeaderShows(k: Link, h: History, f: CanFrame, ring: seq<octet>, fetch: int, store: int, ready: bool)
    requires k.Valid() && Shows(k, h, ring, fetch, store, ready)
    requires h.cur.None? && f.dlc == 8 && IsAtti(f.data)
    requires 0 <= store < k.Capacity() && store % k.size == 0
    ensures Shows(k, Step(k, h, f), ring, store, store, ready)
  {
    hide Flatten, BodyIn, Step, At;
    HeaderStep(k, h, f);
    assert h.bodies[..|h.bodies|] == h.bodies;
    NothingIn(ring, store, k.Capacity());
    PlaceAtHeader(k, h, ring, fetch, store, ready);
    if h.marked.None? {
      FlattenNothing();
      ModSmall(0, k.Capacity());
    } else {
      EndPosition(k, h, ring, fetch, store, ready);
    }
  }

  /** The record in front of a new mark. */
  lemma PlaceAtHeader(k: Link, h: History, ring: seq<octet>, fetch: int, store: int, ready: bool)
    requires k.Valid() && Shows(k, h, ring, fetch, store, ready) && h.cur.None?
    requires 0 <= store < k.Capacity() && store % k.size == 0
    ensures var p := InFront(k, store);
      && 0 <= p && p + k.size <= |ring|
      && ring[p..p + k.size] == if Moved(h) then LastOf(k, h) else h.place
  {
    hide Flatten, BodyIn;
    if h.marked.Some? {
      if Moved(h) {
        EndInFront(k, ring, Newest(h), fetch, store);
      } else {
        ModSmall(fetch, k.Capacity());
        assert store == fetch;
      }
    }
  }

  lemma FlattenNothing()
    ensures Flatten([]) == []
  {
  }

  lemma NothingIn(ring: seq<octet>, fetch: nat, cap: nat)
    requires 0 < cap <= |ring|
    ensures BodyIn(ring, [], fetch, cap) && (fetch < cap ==> At(fetch, 0, cap) == fetch)
  {
    if fetch < cap { ModSmall(fetch, cap); }
  }

  // ---------------------------------------------------------------- data frames

  /** The eight octets of a frame are stored on end, in front of the end of the ring. */
  lemma FrameFits(k: Link, fetch: nat, n: nat)
    requires k.Valid() && fetch < k.Capacity() && fetch % 8 == 0 && n % 8 == 0
    ensures var s, cap := At(fetch, n, k.Capacity()), k.Capacity();
      && s + 8 <= cap
      && At(fetch, n + 8, cap) == if s + 8 == cap then 0 else s + 8
  {
    OffsetFits(k, fetch + n);
    ModStep(fetch + n, 8, k.Capacity());
  }

  /** The octets of the last turn lie clear of the eight that are stored next. */
  lemma ClearOfEnd(fetch: nat, n: nat, i: nat, cap: nat)
    requires cap > 0 && i < n && n + 8 - cap <= i && At(fetch, n, cap) + 8 <= cap
    ensures At(fetch, i, cap) < At(fetch, n, cap) || At(fetch, n, cap) + 8 <= At(fetch, i, cap)
  {
    var j := At(fetch, i, cap) - At(fetch, n, cap);
    if 0 <= j < 8 {
      BehindEnd(fetch, n, j, cap);
      ModApart(fetch + i, fetch + n + j, cap);
    }
  }

  lemma BehindEnd(fetch: nat, n: nat, j: nat, cap: nat)
    requires j < 8 && cap > 0 && At(fetch, n, cap) + 8 <= cap
    ensures At(fetch, n + j, cap) == At(fetch, n, cap) + j
  {
    ModStep(fetch + n, j, cap);
  }

  lemma BodyGrows(k: Link, ring: seq<octet>, ring': seq<octet>, b: seq<octet>, d: seq<octet>, fetch: nat)
    requires k.Valid() && BodyIn(ring, b, fetch, k.Capacity()) && |d| == 8
    requires fetch < k.Capacity() && fetch % 8 == 0 && |b| % 8 == 0
    requires Stored(ring, ring', At(fetch, |b|, k.Capacity()), d)
    ensures BodyIn(ring', b + d, fetch, k.Capacity())
  {
    hide At;
    var cap, s := k.Capacity(), At(fetch, |b|, k.Capacity());
    FrameFits(k, fetch, |b|);
    forall i | 0 <= i < |b + d| && |b + d| - cap <= i
      ensures ring'[At(fetch, i, cap)] == (b + d)[i]
    {
      if i < |b| {
        ClearOfEnd(fetch, |b|, i, cap);
        assert ring[At(fetch, i, cap)] == b[i];
      } else {
        BehindEnd(fetch, |b|, i - |b|, cap);
      }
    }
  }

  /** A frame at offset n of the body falls on the record in front of the body, or keeps clear of it. */
  lemma FrameMeetsPlace(k: Link, fetch: nat, n: nat)
    requires k.Valid() && fetch < k.Capacity() && fetch % k.size == 0 && n % 8 == 0
    ensures var s, p, o := At(fetch, n, k.Capacity()), InFront(k, fetch), n % k.Capacity();
      && (Reaches(k, n) ==> s == p + (o - (k.Capacity() - k.size)) && p <= s && s + 8 <= p + k.size)
      && (!Reaches(k, n) ==> s + 8 <= p || p + k.size <= s)
  {
    MultipleBelow(fetch, k.size, MAX_IMU_NUM);
    OffsetFits(k, n);
    ModSmall(fetch, k.Capacity());
    ModAdd(fetch, n, k.Capacity());
  }

  lemma PlaceOverwritten(k: Link, h: History, ring: seq<octet>, ring': seq<octet>, fetch: nat, n: nat, d: seq<octet>)
    requires k.Valid() && |h.place| == k.size && |d| == 8 && n % 8 == 0 && |ring| >= k.Capacity()
    requires fetch < k.Capacity() && fetch % k.size == 0
    requires var p := InFront(k, fetch); 0 <= p && p + k.size <= |ring| && ring[p..p + k.size] == h.place
    requires Stored(ring, ring', At(fetch, n, k.Capacity()), d)
    ensures var p := InFront(k, fetch); ring'[p..p + k.size] == Overwrite(k, h.place, n, d)
  {
    var s, p := At(fetch, n, k.Capacity()), InFront(k, fetch);
    FrameMeetsPlace(k, fetch, n);
    var after, now := Overwrite(k, h.place, n, d), ring'[p..p + k.size];
    forall j | 0 <= j < k.size
      ensures now[j] == after[j]
    {
      assert ring[p + j] == h.place[j];
      if Reaches(k, n) && s <= p + j < s + 8 {
        assert ring'[p + j] == d[p + j - s];
      }
    }
  }

  /** Storing a frame completes a turn exactly when it reaches the end of the ring. */
  lemma FrameLaps(k: Link, h: History, ring: seq<octet>, fetch: int, store: int, ready: bool)
    requires k.Valid() && Shows(k, h, ring, fetch, store, ready) && h.cur.Some? && 0 <= store
    requires store + 8 <= k.Capacity()
    ensures (|Flatten(h.bodies)| + |h.cur.value| + 8) % k.Capacity() == 0 <==> store + 8 == k.Capacity()
  {
    hide Flatten, BodyIn;
    var n, cap := |Flatten(h.bodies)|, k.Capacity();
    assert h.bodies[..|h.bodies|] == h.bodies;
    ModSmall(fetch, cap);
    ModAdd(n, |h.cur.value|, cap);
    ModAdd(fetch, |h.cur.value|, cap);
    ModStep(n + |h.cur.value|, 8, cap);
  }

  lemma FrameShows(k: Link, h: History, f: CanFrame, ring: seq<octet>, ring': seq<octet>,
                   fetch: int, store: int, ready: bool)
    requires k.Valid() && Shows(k, h, ring, fetch, store, ready)
    requires h.cur.Some? && IsData(f) && fetch % k.size == 0 && fetch % 8 == 0
    requires 0 <= store && store + 8 <= k.Capacity() && Stored(ring, ring', store, Decode(f.data, k.key))
    ensures var wraps := store + 8 == k.Capacity();
      Shows(k, Step(k, h, f), ring', fetch, if wraps then 0 else store + 8, ready || wraps)
  {
    hide Flatten, BodyIn, Overwrite, Stored, Reaches, At;
    var b, d := h.cur.value, Decode(f.data, k.key);
    FrameFits(k, fetch, |b|);
    FrameLaps(k, h, ring, fetch, store, ready);
    BodyGrows(k, ring, ring', b, d, fetch);
    PlaceOverwritten(k, h, ring, ring', fetch, |b|, d);
    StoredLength(ring, ring', store, d);
    DataStep(k, h, f);
    assert Step(k, h, f).place == Overwrite(k, h.place, |b|, d);
  }

  lemma StoredLength(ring: seq<octet>, ring': seq<octet>, s: nat, d: seq<octet>)
    requires Stored(ring, ring', s, d)
    ensures |ring'| == |ring|
  {
  }

  /** A frame is stored over the record promised to the reader exactly when it spoils it: when it makes the
      body outgrow the ring less one record. */
  lemma OverwritesPromise(k: Link, h: History, f: CanFrame, ring: seq<octet>, fetch: int, store: int, ready: bool)
    requires k.Valid() && Shows(k, h, ring, fetch, store, ready) && Sound(k, h) && !h.spoilt
    requires h.lapped && h.cur.Some? && IsData(f) && fetch % k.size == 0
    ensures var p := InFront(k, fetch);
      && HasRecord(k, h) && ring[p..p + k.size] == LastRecord(k, h)
      && (Step(k, h, f).spoilt <==> store < p + k.size && p < store + 8)
      && (Step(k, h, f).spoilt <==> |Step(k, h, f).cur.value| > k.Capacity() - k.size)
  {
    hide Flatten, BodyIn, At, Overwrite;
    DataStep(k, h, f);
    SpoiltRecord(k, h, f);
    FrameMeetsPlace(k, fetch, |h.cur.value|);
  }

  // ---------------------------------------------------------------- the end of a message

  lemma AbortShows(k: Link, h: History, ring: seq<octet>, fetch: int, store: int, ready: bool)
    requires k.Valid() && Shows(k, h, ring, fetch, store, ready) && h.cur.Some?
    ensures Shows(k, h.(cur := None), ring, fetch, fetch, ready)
  {
    hide Flatten, BodyIn;
    NothingIn(ring, fetch, k.Capacity());
    ModSmall(fetch, k.Capacity());
  }

  lemma AcceptShows(k: Link, h: History, ring: seq<octet>, fetch: int, store: int, ready: bool)
    requires k.Valid() && Shows(k, h, ring, fetch, store, ready)
    requires h.cur.Some? && k.size <= |h.cur.value|
    ensures Shows(k, h.(cur := None, bodies := h.bodies + [h.cur.value]), ring, fetch, store, ready)
  {
    hide Flatten, BodyIn;
    var h' := h.(cur := None, bodies := h.bodies + [h.cur.value]);
    assert Newest(h') == Newest(h);
    assert h'.bodies[..h.marked.value] == h.bodies[..h.marked.value];
  }

  /** The store position is at a record boundary exactly when the body is a whole number of records. */
  lemma BodyAligned(k: Link, fetch: nat, n: nat)
    requires k.Valid() && fetch % k.size == 0
    ensures At(fetch, n, k.Capacity()) % k.size == n % k.size
  {
    assert k.Capacity() == k.size * MAX_IMU_NUM;
    ModOfMod(fetch + n, k.size, MAX_IMU_NUM);
    ModAdd(fetch, n, k.size);
  }

  /** The plausibility test reads the record of the body that stands behind the fetch position. */
  lemma TestedRecord(k: Link, ring: seq<octet>, b: seq<octet>, fetch: nat)
    requires k.Valid() && BodyIn(ring, b, fetch, k.Capacity()) && k.size <= |b| && |b| % k.size == 0
    requires fetch + k.size <= k.Capacity()
    ensures var t := TestedAt(k, |b|); ring[fetch..fetch + k.size] == b[t..t + k.size]
  {
    hide At, TestedAt;
    var cap, t := k.Capacity(), TestedAt(k, |b|);
    TestedInLastTurn(k, |b|);
    var there, here := ring[fetch..fetch + k.size], b[t..t + k.size];
    forall j | 0 <= j < k.size
      ensures there[j] == here[j]
    {
      TestedPosition(t, fetch, j, cap);
      assert ring[At(fetch, t + j, cap)] == b[t + j];
    }
  }

  lemma TestedInLastTurn(k: Link, n: nat)
    requires k.Valid() && k.size <= n && n % k.size == 0
    ensures n - k.Capacity() <= TestedAt(k, n)
  {
    var x := n - k.size;
    assert k.Capacity() == k.size * MAX_IMU_NUM;
    AlignedRest(x, k.size);
    ModOfMod(x, k.size, MAX_IMU_NUM);
    MultipleBelow(x % k.Capacity(), k.size, MAX_IMU_NUM);
  }

  lemma TestedPosition(t: nat, fetch: nat, j: nat, cap: nat)
    requires fetch + j < cap && t % cap == 0
    ensures At(fetch, t + j, cap) == fetch + j
  {
    ModStep(t, fetch + j, cap);
  }

  lemma AlignedRest(x: nat, n: nat)
    requires n > 0 && (x + n) % n == 0
    ensures x % n == 0
  {
    ModAdd(x, n, n);
    MultipleOf(n, 1);
  }

  /** Whether the receiver keeps what it stored when a message ends with frame f. */
  predicate Keeps(k: Link, f: CanFrame, ring: seq<octet>, fetch: nat, store: nat)
    requires k.Valid() && fetch + k.size <= |ring|
  {
    f.dlc == 4 && store % k.size == 0 && IsTail(f.data) && k.check(ring[fetch..fetch + k.size])
  }

  /** The receiver's test at the end of a message is the message-level one: it keeps the body exactly
      when the body is acceptable; an empty body leaves the store position alone either way. */
  lemma KeepsBody(k: Link, h: History, f: CanFrame, ring: seq<octet>, fetch: int, store: int, ready: bool)
    requires k.Valid() && Shows(k, h, ring, fetch, store, ready)
    requires h.cur.Some? && f.dlc != 8
    requires 0 <= fetch && fetch % k.size == 0 && fetch + k.size <= k.Capacity() && 0 <= store
    ensures Keeps(k, f, ring, fetch, store) ==>
      store == fetch || (f.dlc == 4 && IsTail(f.data) && Acceptable(k, h.cur.value))
    ensures !Keeps(k, f, ring, fetch, store) ==>
      !(f.dlc == 4 && IsTail(f.data) && Acceptable(k, h.cur.value))
  {
    hide Flatten, BodyIn, TestedAt;
    var b := h.cur.value;
    BodyAligned(k, fetch, |b|);
    if |b| % k.size == 0 {
      if |b| >= k.size {
        TestedRecord(k, ring, b, fetch);
      } else {
        ModSmall(|b|, k.size);
        ModSmall(fetch, k.Capacity());
      }
    }
  }

  lemma CloseShows(k: Link, h: History, f: CanFrame, ring: seq<octet>, fetch: int, store: int, ready: bool)
    requires k.Valid() && Shows(k, h, ring, fetch, store, ready)
    requires h.cur.Some? && f.dlc != 8
    requires 0 <= fetch && fetch % k.size == 0 && fetch + k.size <= k.Capacity() && 0 <= store
    ensures Shows(k, Step(k, h, f), ring, fetch,
                  if Keeps(k, f, ring, fetch, store) then store else fetch, ready)
  {
    hide Shows, Keeps;
    KeepsBody(k, h, f, ring, fetch, store, ready);
    ShowsStepable(k, h, ring, fetch, store, ready);
    if f.dlc == 4 && IsTail(f.data) && Acceptable(k, h.cur.value) {
      AcceptShows(k, h, ring, fetch, store, ready);
    } else {
      AbortShows(k, h, ring, fetch, store, ready);
    }
  }

  lemma ShowsStepable(k: Link, h: History, ring: seq<octet>, fetch: int, store: int, ready: bool)
    requires k.Valid() && Shows(k, h, ring, fetch, store, ready)
    ensures |h.place| == k.size && (h.cur.Some? ==> |h.cur.value| % 8 == 0) && ready == h.lapped
  {
  }
}
