/** What the IMU receiver is for, told without a ring: the messages of a frame stream. */
module ImuHistory {
  import opened Arithmetic
  import opened Options
  import opened CanFrames

  const MAX_IMU_NUM: nat := 20

  /** Record size, XOR key and plausibility test of a link. `check` stands for the quaternion test. */
  datatype Link = Link(size: nat, key: octet, check: seq<octet> -> bool) {
    ghost predicate Valid() {
      size >= 8 && size % 8 == 0
    }

    function Capacity(): nat {
      MAX_IMU_NUM * size
    }
  }

  /** The messages seen so far.
      bodies: the accepted ones, in order;  cur: the body being received, if any;
      marked: how many were accepted when the most recent header arrived;
      lapped: whether the octets of the messages have ever filled a whole number of turns of the ring;
      place:  the octets that now stand in the record in front of the most recent header's body;
      spoilt: whether a body has been written over that record since it was put there. */
  datatype History = History(bodies: seq<seq<octet>>, cur: Option<seq<octet>>, marked: Option<nat>,
                             lapped: bool, place: seq<octet>, spoilt: bool)

  function Zeros(n: nat): (r: seq<octet>)
    ensures |r| == n && forall i :: 0 <= i < n ==> r[i] == 0
  {
    seq(n, _ => 0)
  }

  function Empty(k: Link): History {
    History([], None, None, false, Zeros(k.size), false)
  }

  function Flatten(bodies: seq<seq<octet>>): seq<octet> {
    if bodies == [] then [] else Flatten(bodies[..|bodies| - 1]) + bodies[|bodies| - 1]
  }

  /** Where in a body of n octets the record lies that the plausibility test reads: at its start, or for a
      body longer than the ring, at the start of the last whole turn that leaves room for a record. */
  function TestedAt(k: Link, n: nat): (r: nat)
    requires k.Valid() && k.size <= n
    ensures r + k.size <= n && r % k.Capacity() == 0
  {
    ModFloor(n - k.size, k.Capacity());
    n - k.size - (n - k.size) % k.Capacity()
  }

  predicate Acceptable(k: Link, b: seq<octet>)
    requires k.Valid()
  {
    && k.size <= |b| && |b| % k.size == 0
    && var t := TestedAt(k, |b|); k.check(b[t..t + k.size])
  }

  /** Octets stored at offset `at` of a body fall on the record in front of the body, which is the last one
      of the turn that begins with the body. */
  predicate Reaches(k: Link, at: nat)
    requires k.Valid()
  {
    at % k.Capacity() >= k.Capacity() - k.size
  }

  /** That record after octets d have been stored at offset `at` of the body. */
  function Overwrite(k: Link, place: seq<octet>, at: nat, d: seq<octet>): (r: seq<octet>)
    requires k.Valid() && |place| == k.size && |d| == 8 && at % 8 == 0
    ensures |r| == k.size
  {
    if Reaches(k, at) then
      var o := at % k.Capacity() - (k.Capacity() - k.size);
      OffsetFits(k, at);
      place[..o] + d + place[o + 8..]
    else place
  }

  /** Offsets of frames are multiples of 8, and so are records. */
  lemma OffsetFits(k: Link, at: nat)
    requires k.Valid() && at % 8 == 0
    ensures at % k.Capacity() < k.Capacity() && (at % k.Capacity()) % 8 == 0
    ensures at % k.Capacity() + 8 <= k.Capacity()
    ensures !Reaches(k, at) ==> at % k.Capacity() + 8 <= k.Capacity() - k.size
  {
    var q := MAX_IMU_NUM * (k.size / 8);
    assert k.Capacity() == 8 * q;
    ModOfMod(at, 8, q);
  }

  /** Whether a body was accepted since the most recent header. */
  predicate Moved(h: History) {
    h.marked.Some? && h.marked.value < |h.bodies|
  }

  /** The end of the newest body. */
  function LastOf(k: Link, h: History): seq<octet> {
    if h.bodies != [] && k.size <= |h.bodies[|h.bodies| - 1]| then
      var b := h.bodies[|h.bodies| - 1];
      b[|b| - k.size..]
    else h.place
  }

  function Step(k: Link, h: History, f: CanFrame): (h': History)
    requires k.Valid() && |h.place| == k.size && (h.cur.Some? ==> |h.cur.value| % 8 == 0)
    ensures |h'.place| == k.size && (h'.cur.Some? ==> |h'.cur.value| % 8 == 0)
  {
    match h.cur
    case None =>
      if f.dlc == 8 && IsAtti(f.data) then
        h.(cur := Some([]), marked := Some(|h.bodies|),
           place := if Moved(h) then LastOf(k, h) else h.place, spoilt := h.spoilt && !Moved(h))
      else h
    case Some(b) =>
      if IsData(f) then
        var d := Decode(f.data, k.key);
        h.(cur := Some(b + d),
           lapped := h.lapped || (|Flatten(h.bodies)| + |b + d|) % k.Capacity() == 0,
           place := Overwrite(k, h.place, |b|, d),
           spoilt := h.spoilt || Reaches(k, |b|))
      else if f.dlc == 4 && IsTail(f.data) && Acceptable(k, b) then
        h.(cur := None, bodies := h.bodies + [b])
      else
        h.(cur := None)
  }

  function Run(k: Link, fs: seq<CanFrame>): (h: History)
    requires k.Valid()
    ensures |h.place| == k.size && (h.cur.Some? ==> |h.cur.value| % 8 == 0)
  {
    if fs == [] then Empty(k) else Step(k, Run(k, fs[..|fs| - 1]), fs[|fs| - 1])
  }

  /** What GetIMU answers: the record in front of the most recent header's body, once a turn is complete. */
  function Answer(h: History): Option<seq<octet>> {
    if h.lapped then Some(h.place) else None
  }

  /** The record a reader is promised: the end of the last body accepted before the last header. */
  predicate HasRecord(k: Link, h: History) {
    h.marked.Some? && 0 < h.marked.value <= |h.bodies| && k.size <= |h.bodies[h.marked.value - 1]|
  }

  function LastRecord(k: Link, h: History): seq<octet>
    requires HasRecord(k, h)
  {
    var b := h.bodies[h.marked.value - 1];
    b[|b| - k.size..]
  }

  // ---------------------------------------------------------------- histories and frame streams

  lemma RunSnoc(k: Link, fs: seq<CanFrame>, f: CanFrame)
    requires k.Valid()
    ensures Run(k, fs + [f]) == Step(k, Run(k, fs), f)
  {
    assert (fs + [f])[..|fs|] == fs;
  }

  function DecodeAll(key: octet, fs: seq<CanFrame>): (r: seq<octet>)
    ensures |r| == 8 * |fs|
  {
    if fs == [] then [] else DecodeAll(key, fs[..|fs| - 1]) + Decode(fs[|fs| - 1].data, key)
  }

  /** Frame i opens a message and the frames between i and j are its body. */
  ghost predicate OpenAt(fs: seq<CanFrame>, i: int, j: int) {
    && 0 <= i < j <= |fs|
    && fs[i].dlc == 8 && IsAtti(fs[i].data)
    && forall m :: i < m < j ==> IsData(fs[m])
  }

  /** Frames i .. j form one complete message: header, data frames, tail. */
  ghost predicate Message(fs: seq<CanFrame>, i: int, j: int) {
    OpenAt(fs, i, j) && j < |fs| && fs[j].dlc == 4 && IsTail(fs[j].data)
  }

  /** While a message is open, the current body is what followed its header. */
  lemma {:induction false} CurrentBody(k: Link, fs: seq<CanFrame>) returns (i: nat)
    requires k.Valid() && Run(k, fs).cur.Some?
    ensures OpenAt(fs, i, |fs|)
    ensures Run(k, fs).cur.value == DecodeAll(k.key, fs[i + 1..])
  {
    hide Overwrite, Reaches, Flatten, IsHead, IsTail, Decode, Acceptable;
    var front, f := fs[..|fs| - 1], fs[|fs| - 1];
    if Run(k, front).cur.None? {
      i := |fs| - 1;
    } else {
      i := CurrentBody(k, front);
      assert fs[i + 1..][..|fs| - i - 2] == front[i + 1..];
    }
  }

  /** A step leaves the accepted bodies alone, or it closes an acceptable one. */
  lemma StepBodies(k: Link, h: History, f: CanFrame)
    requires k.Valid() && |h.place| == k.size && (h.cur.Some? ==> |h.cur.value| % 8 == 0)
    ensures var h' := Step(k, h, f);
      || h'.bodies == h.bodies
      || (h.cur.Some? && f.dlc == 4 && IsTail(f.data) && Acceptable(k, h.cur.value)
          && h'.bodies == h.bodies + [h.cur.value])
  {
  }

  lemma MessageInPrefix(fs: seq<CanFrame>, n: nat, i: nat, j: nat)
    requires n <= |fs| && Message(fs[..n], i, j)
    ensures Message(fs, i, j) && fs[..n][i + 1..j] == fs[i + 1..j]
  {
    forall m | i < m < j
      ensures IsData(fs[m])
    {
      assert fs[..n][m] == fs[m];
    }
  }

  /** The frame that closes an acceptable body completes a message. */
  lemma NewestMessage(k: Link, front: seq<CanFrame>, f: CanFrame) returns (i: nat, j: nat)
    requires k.Valid() && Run(k, front).cur.Some? && f.dlc == 4 && IsTail(f.data)
    ensures j == |front| && Message(front + [f], i, j)
    ensures Run(k, front).cur.value == DecodeAll(k.key, (front + [f])[i + 1..j])
  {
    i := CurrentBody(k, front);
    j := |front|;
    assert front[i + 1..] == (front + [f])[i + 1..j];
  }

  /** Every accepted body is the key-free content of one complete message of the stream, is a whole
      number of records, and its first record passed the plausibility test. */
  lemma {:induction false} BodyIsMessage(k: Link, fs: seq<CanFrame>, n: nat) returns (i: nat, j: nat)
    requires k.Valid() && n < |Run(k, fs).bodies|
    ensures Message(fs, i, j)
    ensures Run(k, fs).bodies[n] == DecodeAll(k.key, fs[i + 1..j])
    ensures Acceptable(k, Run(k, fs).bodies[n])
  {
    hide Overwrite, Reaches, Flatten, IsHead, IsTail, Decode, Acceptable;
    var front := fs[..|fs| - 1];
    var h := Run(k, front);
    StepBodies(k, h, fs[|fs| - 1]);
    if n < |h.bodies| {
      i, j := BodyIsMessage(k, front, n);
      MessageInPrefix(fs, |fs| - 1, i, j);
    } else {
      i, j := NewestMessage(k, front, fs[|fs| - 1]);
      assert fs == front + [fs[|fs| - 1]];
    }
  }

  lemma RunPrefix(k: Link, fs: seq<CanFrame>, n: nat)
    requires k.Valid() && n < |fs|
    ensures Run(k, fs[..n + 1]) == Step(k, Run(k, fs[..n]), fs[n])
  {
    assert fs[..n + 1] == fs[..n] + [fs[n]];
    RunSnoc(k, fs[..n], fs[n]);
  }

  /** What a header and a data frame do. */
  lemma HeaderStep(k: Link, h: History, f: CanFrame)
    requires k.Valid() && |h.place| == k.size && h.cur.None? && f.dlc == 8 && IsAtti(f.data)
    ensures var h' := Step(k, h, f);
      && h'.cur == Some([]) && h'.bodies == h.bodies && h'.marked == Some(|h.bodies|)
      && h'.spoilt == (h.spoilt && !Moved(h)) && h'.lapped == h.lapped
      && h'.place == if Moved(h) then LastOf(k, h) else h.place
  {
  }

  lemma StrayStep(k: Link, h: History, f: CanFrame)
    requires k.Valid() && |h.place| == k.size && h.cur.Some? && |h.cur.value| % 8 == 0 && f.dlc == 8 && !IsData(f)
    ensures Step(k, h, f) == h.(cur := None)
  {
  }

  lemma DataStep(k: Link, h: History, f: CanFrame)
    requires k.Valid() && |h.place| == k.size && h.cur.Some? && |h.cur.value| % 8 == 0 && IsData(f)
    ensures var h', n := Step(k, h, f), |h.cur.value|;
      && h'.cur == Some(h.cur.value + Decode(f.data, k.key)) && h'.bodies == h.bodies && h'.marked == h.marked
      && h'.spoilt == (h.spoilt || Reaches(k, n))
      && h'.lapped == (h.lapped || (|Flatten(h.bodies)| + n + 8) % k.Capacity() == 0)
  {
  }

  lemma {:induction false} MessageOpen(k: Link, fs: seq<CanFrame>, i: nat, j: nat)
    requires k.Valid() && OpenAt(fs, i, j)
    requires Run(k, fs[..i]).cur.None?
    ensures Run(k, fs[..j]).cur == Some(DecodeAll(k.key, fs[i + 1..j]))
    ensures Run(k, fs[..j]).bodies == Run(k, fs[..i]).bodies
    ensures Run(k, fs[..j]).marked == Some(|Run(k, fs[..i]).bodies|)
    decreases j
  {
    hide Run, Step, IsData, IsAtti, Decode;
    RunPrefix(k, fs, j - 1);
    if j == i + 1 {
      HeaderStep(k, Run(k, fs[..i]), fs[i]);
    } else {
      MessageOpen(k, fs, i, j - 1);
      DataStep(k, Run(k, fs[..j - 1]), fs[j - 1]);
      assert fs[i + 1..j][..j - i - 2] == fs[i + 1..j - 1];
    }
  }

  /** A complete message that starts while the receiver is idle is accepted exactly when its body is
      acceptable, and then becomes the newest body. */
  lemma MessageAccepted(k: Link, fs: seq<CanFrame>, i: nat, j: nat)
    requires k.Valid() && Message(fs, i, j)
    requires Run(k, fs[..i]).cur.None?
    ensures Run(k, fs[..j + 1]).cur.None? && Run(k, fs[..j + 1]).marked == Some(|Run(k, fs[..i]).bodies|)
    ensures var b := DecodeAll(k.key, fs[i + 1..j]);
      Run(k, fs[..j + 1]).bodies == Run(k, fs[..i]).bodies + (if Acceptable(k, b) then [b] else [])
  {
    hide Overwrite, Reaches, Flatten, IsHead, IsTail, Decode, DecodeAll, Acceptable;
    MessageOpen(k, fs, i, j);
    RunPrefix(k, fs, j);
  }

  // ---------------------------------------------------------------- frames outside messages, publication

  lemma RunConcat(k: Link, fs: seq<CanFrame>, gs: seq<CanFrame>)
    requires k.Valid() && gs != []
    ensures Run(k, fs + gs) == Step(k, Run(k, fs + gs[..|gs| - 1]), gs[|gs| - 1])
  {
    hide Run, Step;
    assert fs + gs == (fs + gs[..|gs| - 1]) + [gs[|gs| - 1]];
    RunSnoc(k, fs + gs[..|gs| - 1], gs[|gs| - 1]);
  }

  /** While no message is open, frames that are no header change nothing at all, and so no answer: for
      instance the rest of a message that a stray header dropped. */
  lemma {:induction false} IdleFramesIgnored(k: Link, fs: seq<CanFrame>, gs: seq<CanFrame>)
    requires k.Valid() && Run(k, fs).cur.None?
    requires forall n :: 0 <= n < |gs| ==> !(gs[n].dlc == 8 && IsAtti(gs[n].data))
    ensures Run(k, fs + gs) == Run(k, fs) && Answer(Run(k, fs + gs)) == Answer(Run(k, fs))
  {
    if gs == [] {
      assert fs + gs == fs;
    } else {
      IdleFramesIgnored(k, fs, gs[..|gs| - 1]);
      RunConcat(k, fs, gs);
    }
  }

  /** Once a request is answered by a record, no further frame turns the answer back into none. */
  lemma {:induction false} PublishedStays(k: Link, fs: seq<CanFrame>, gs: seq<CanFrame>)
    requires k.Valid() && Answer(Run(k, fs)).Some?
    ensures Answer(Run(k, fs + gs)).Some?
  {
    if gs == [] {
      assert fs + gs == fs;
    } else {
      PublishedStays(k, fs, gs[..|gs| - 1]);
      RunConcat(k, fs, gs);
    }
  }

  /** The n-th frame is a data frame of a message and brings the octets of the accepted bodies and of its own
      to a whole number of turns of the ring. */
  ghost predicate CompletesTurn(k: Link, fs: seq<CanFrame>, n: nat)
    requires k.Valid() && 0 < n <= |fs|
  {
    && Run(k, fs[..n - 1]).cur.Some? && IsData(fs[n - 1])
    && (|Flatten(Run(k, fs[..n - 1]).bodies)| + |Run(k, fs[..n - 1]).cur.value| + 8) % k.Capacity() == 0
  }

  /** Requests are answered by a record exactly when some frame so far has completed a turn. */
  lemma {:induction false} PublishedExactly(k: Link, fs: seq<CanFrame>)
    requires k.Valid()
    ensures Answer(Run(k, fs)).Some? <==> exists n :: 0 < n <= |fs| && CompletesTurn(k, fs, n)
  {
    hide Flatten, IsHead, IsTail, IsAtti, Decode, Acceptable, Overwrite, Reaches;
    if fs != [] {
      var front := fs[..|fs| - 1];
      PublishedExactly(k, front);
      forall n | 0 < n <= |front|
        ensures CompletesTurn(k, fs, n) <==> CompletesTurn(k, front, n)
      {
        assert fs[..n - 1] == front[..n - 1];
      }
      assert Answer(Run(k, fs)).Some? <==> Answer(Run(k, front)).Some? || CompletesTurn(k, fs, |fs|);
    }
  }

  // ---------------------------------------------------------------- the promise

  ghost predicate Whole(k: Link, bodies: seq<seq<octet>>)
    requires k.Valid()
  {
    forall n :: 0 <= n < |bodies| ==> Acceptable(k, bodies[n])
  }

  /** What every frame leaves true: while nothing has spoilt the record in front of the body, it is the
      promised one, and there is one as soon as a turn is complete. */
  ghost predicate Sound(k: Link, h: History)
    requires k.Valid()
  {
    && Whole(k, h.bodies) && |h.place| == k.size
    && (h.marked.None? ==> h == Empty(k))
    && (h.marked.Some? ==> h.marked.value <= |h.bodies| <= h.marked.value + 1)
    && (h.cur.Some? ==> h.marked == Some(|h.bodies|) && |h.cur.value| % 8 == 0)
    && (!h.spoilt && h.cur.Some? ==> |h.cur.value| <= k.Capacity() - k.size)
    && (!h.spoilt && HasRecord(k, h) ==> h.place == LastRecord(k, h))
    && (!h.spoilt && h.lapped ==> HasRecord(k, h))
  }

  lemma HeaderSound(k: Link, h: History, f: CanFrame)
    requires k.Valid() && Sound(k, h) && h.cur.None? && f.dlc == 8 && IsAtti(f.data)
    ensures Sound(k, Step(k, h, f))
  {
    if Moved(h) {
      assert Acceptable(k, h.bodies[|h.bodies| - 1]);
    }
  }

  /** The first octets that reach the promised record are those behind 19 records. */
  lemma ReachesAt(k: Link, n: nat)
    requires k.Valid() && n <= k.Capacity() - k.size && n % 8 == 0
    ensures Reaches(k, n) <==> n == k.Capacity() - k.size
    ensures !Reaches(k, n) ==> n + 8 <= k.Capacity() - k.size
  {
    ModSmall(n, k.Capacity());
    OffsetFits(k, n);
  }

  lemma DataSound(k: Link, h: History, f: CanFrame)
    requires k.Valid() && Sound(k, h) && h.cur.Some? && IsData(f)
    ensures Sound(k, Step(k, h, f))
  {
    var h', n := Step(k, h, f), |h.cur.value|;
    if !h'.spoilt {
      ReachesAt(k, n);
      ModSmall(n + 8, k.Capacity());
      assert Flatten([]) == [];
      if h.bodies != [] {
        assert Acceptable(k, h.bodies[|h.bodies| - 1]);
      }
    }
  }

  lemma StepSound(k: Link, h: History, f: CanFrame)
    requires k.Valid() && Sound(k, h)
    ensures Sound(k, Step(k, h, f))
  {
    hide Decode, Overwrite, Reaches, Flatten, IsHead, IsTail, LastOf;
    match h.cur
    case None =>
      if f.dlc == 8 && IsAtti(f.data) { HeaderSound(k, h, f); }
    case Some(b) =>
      if IsData(f) { DataSound(k, h, f); }
  }

  lemma {:induction false} RunSound(k: Link, fs: seq<CanFrame>)
    requires k.Valid()
    ensures Sound(k, Run(k, fs))
  {
    if fs != [] {
      RunSound(k, fs[..|fs| - 1]);
      StepSound(k, Run(k, fs[..|fs| - 1]), fs[|fs| - 1]);
    }
  }

  /** As long as the promised record is not spoilt, the reader gets it as soon as it gets anything. */
  lemma PromiseKept(k: Link, fs: seq<CanFrame>)
    requires k.Valid() && !Run(k, fs).spoilt
    ensures var h := Run(k, fs);
      h.lapped ==> HasRecord(k, h) && Answer(h) == Some(LastRecord(k, h))
  {
    RunSound(k, fs);
  }

  /** Nothing is spoilt as long as no body outgrows the ring less one record. */
  lemma {:induction false} ShortBodiesSpoilNothing(k: Link, fs: seq<CanFrame>)
    requires k.Valid()
    requires forall n :: 0 <= n <= |fs| && Run(k, fs[..n]).cur.Some? ==>
      |Run(k, fs[..n]).cur.value| <= k.Capacity() - k.size
    ensures !Run(k, fs).spoilt
  {
    if fs != [] {
      var front := fs[..|fs| - 1];
      forall n | 0 <= n <= |front| && Run(k, front[..n]).cur.Some?
        ensures |Run(k, front[..n]).cur.value| <= k.Capacity() - k.size
      {
        assert front[..n] == fs[..n];
      }
      ShortBodiesSpoilNothing(k, front);
      assert front[..|front|] == front && fs[..|fs|] == fs;
      var h := Run(k, front);
      if h.cur.Some? && IsData(fs[|fs| - 1]) {
        assert |Run(k, fs[..|fs|]).cur.value| == |h.cur.value| + 8;
        ReachesAt(k, |h.cur.value|);
      }
    }
  }

  /** A frame spoils the promised record exactly when it makes the body outgrow the ring less one record.
      The reader then gets the frame's octets for the first eight of the record: the promise is broken
      exactly when these differ. */
  lemma SpoiltRecord(k: Link, h: History, f: CanFrame)
    requires k.Valid() && Sound(k, h) && !h.spoilt && h.lapped && h.cur.Some? && IsData(f)
    ensures HasRecord(k, h) && |LastRecord(k, h)| == k.size
    ensures var h', d, p := Step(k, h, f), Decode(f.data, k.key), LastRecord(k, h);
      && HasRecord(k, h') && LastRecord(k, h') == p
      && (h'.spoilt <==> |h'.cur.value| > k.Capacity() - k.size)
      && Answer(h') == Some(if h'.spoilt then d + p[8..] else p)
      && (Answer(h') == Some(p) <==> !h'.spoilt || d == p[..8])
  {
    var n, d, p := |h.cur.value|, Decode(f.data, k.key), LastRecord(k, h);
    ReachesAt(k, n);
    ModSmall(n, k.Capacity());
    assert p == p[..8] + p[8..];
    assert (d + p[8..])[..8] == d;
    assert Reaches(k, n) ==> Overwrite(k, h.place, n, d) == d + p[8..];
  }

  /** A body of one record is acceptable exactly when it is plausible. */
  lemma LoneRecord(k: Link, b: seq<octet>)
    requires k.Valid() && |b| == k.size
    ensures Acceptable(k, b) <==> k.check(b)
  {
    ModSmall(0, k.Capacity());
    MultipleOf(k.size, 1);
    assert b[0..k.size] == b;
  }

  /** The promise is the whole body, and that body passed the test, exactly when the body is no longer
      than a record. */
  lemma RecordIsBody(k: Link, fs: seq<CanFrame>)
    requires k.Valid() && HasRecord(k, Run(k, fs))
    ensures var h := Run(k, fs);
      var b := h.bodies[h.marked.value - 1];
      && (LastRecord(k, h) == b <==> |b| <= k.size)
      && (|b| <= k.size ==> k.check(LastRecord(k, h)))
  {
    var h := Run(k, fs);
    var i, j := BodyIsMessage(k, fs, h.marked.value - 1);
    var b := h.bodies[h.marked.value - 1];
    hide Run, Acceptable, Message;
    if |b| == k.size {
      LoneRecord(k, b);
      assert b[0..] == b;
    }
  }

  /** One message on its own: header, data frames, tail. */
  function MessageOf(header: CanFrame, data: seq<CanFrame>, tail: CanFrame): seq<CanFrame> {
    [header] + data + [tail]
  }

  ghost predicate MessageParts(header: CanFrame, data: seq<CanFrame>, tail: CanFrame) {
    && header.dlc == 8 && IsAtti(header.data)
    && (forall n :: 0 <= n < |data| ==> IsData(data[n]))
    && tail.dlc == 4 && IsTail(tail.data)
  }

  lemma FirstMessage(k: Link, header: CanFrame, data: seq<CanFrame>, tail: CanFrame)
    requires k.Valid() && MessageParts(header, data, tail) && Acceptable(k, DecodeAll(k.key, data))
    ensures var h := Run(k, MessageOf(header, data, tail));
      h.bodies == [DecodeAll(k.key, data)] && h.cur.None? && h.marked == Some(0)
  {
    hide Step, Acceptable;
    var fs, n := MessageOf(header, data, tail), |data| + 1;
    assert fs[..0] == [] && fs[..n + 1] == fs && fs[1..n] == data;
    MessageAccepted(k, fs, 0, n);
  }

  lemma TwoRecords(k: Link, b: seq<octet>)
    requires k.Valid() && |b| == 2 * k.size
    ensures Acceptable(k, b) <==> k.check(b[..k.size])
  {
    MultipleOf(k.size, 2);
    ModSmall(k.size, k.Capacity());
    assert b[0..k.size] == b[..k.size];
  }

  /** Bodies longer than a record do get accepted: for every link, two records behind one header whose first
      record is plausible. What is then promised is the second one, which was never tested. */
  lemma OverlongBodyAccepted(k: Link, header: CanFrame, data: seq<CanFrame>, tail: CanFrame)
    requires k.Valid() && MessageParts(header, data, tail) && 8 * |data| == 2 * k.size
    requires k.check(DecodeAll(k.key, data)[..k.size])
    ensures var b, h := DecodeAll(k.key, data), Run(k, MessageOf(header, data, tail) + [header]);
      && h.bodies == [b] && HasRecord(k, h)
      && LastRecord(k, h) == b[k.size..] && LastRecord(k, h) != b
  {
    hide Run, Acceptable;
    var b := DecodeAll(k.key, data);
    TwoRecords(k, b);
    FirstMessage(k, header, data, tail);
    RunSnoc(k, MessageOf(header, data, tail), header);
  }

  /** A run in which the reader is answered wrongly, for every link: a message of one record, then a header
      with 19 records and one more frame behind it, which a stray header drops. The promise is the first
      message's record; the answer has the frame's octets in it. */
  lemma PromiseBroken(k: Link, header: CanFrame, data: seq<CanFrame>, tail: CanFrame,
                      filler: seq<CanFrame>, f: CanFrame)
    requires k.Valid() && MessageParts(header, data, tail) && 8 * |data| == k.size && k.check(DecodeAll(k.key, data))
    requires MessageParts(header, filler, tail) && 8 * |filler| == k.Capacity() - k.size && IsData(f)
    ensures var p, d := DecodeAll(k.key, data), Decode(f.data, k.key);
      var h := Run(k, MessageOf(header, data, tail) + [header] + filler + [f] + [header]);
      && h.cur.None? && |p| == k.size && HasRecord(k, h) && LastRecord(k, h) == p
      && Answer(h) == Some(d + p[8..]) && (Answer(h) == Some(p) <==> d == p[..8])
  {
    hide Run, Step, Acceptable, Decode, Reaches;
    var p := DecodeAll(k.key, data);
    LoneRecord(k, p);
    FirstMessage(k, header, data, tail);
    var one := MessageOf(header, data, tail);
    var fs := one + [header] + filler;
    FillsTheRing(k, one, header, filler, tail);
    RunSound(k, fs);
    hide Sound, Moved;
    var h := Run(k, fs);
    assert HasRecord(k, h) && LastRecord(k, h) == p[0..] == p;
    SpoiltRecord(k, h, f);
    DataStep(k, h, f);
    RunSnoc(k, fs, f);
    RunSnoc(k, fs + [f], header);
    StrayStep(k, Run(k, fs + [f]), header);
  }

  lemma FillsTheRing(k: Link, one: seq<CanFrame>, header: CanFrame, filler: seq<CanFrame>, tail: CanFrame)
    requires k.Valid() && MessageParts(header, filler, tail) && 8 * |filler| == k.Capacity() - k.size
    requires var h := Run(k, one); h.cur.None? && Moved(h) && |h.bodies| == 1 && |h.bodies[0]| == k.size
    ensures var h := Run(k, one + [header] + filler);
      && h.cur.Some? && |h.cur.value| == k.Capacity() - k.size && !h.spoilt && h.lapped
      && h.bodies == Run(k, one).bodies && h.marked == Some(1)
  {
    hide Run, Step, Reaches;
    var fs, i := one + [header] + filler, |one|;
    var j := i + 1 + |filler|;
    assert fs[..i] == one && fs[..j] == fs && fs[..j - 1] == fs[..j][..j - 1];
    MessageOpen(k, fs, i, j);
    MessageOpen(k, fs, i, j - 1);
    StaysUnspoilt(k, fs, i, j);
    RunPrefix(k, fs, j - 1);
    DataStep(k, Run(k, fs[..j - 1]), fs[j - 1]);
    LengthOfOne(Run(k, one).bodies);
    DivModUnique(k.Capacity(), 1, 0);
  }

  lemma LengthOfOne(bodies: seq<seq<octet>>)
    requires |bodies| == 1
    ensures Flatten(bodies) == bodies[0]
  {
    assert bodies[..0] == [];
  }

  /** A body no longer than the ring less one record leaves the record of a new mark alone. */
  lemma {:induction false} StaysUnspoilt(k: Link, fs: seq<CanFrame>, i: nat, j: nat)
    requires k.Valid() && OpenAt(fs, i, j) && Moved(Run(k, fs[..i])) && Run(k, fs[..i]).cur.None?
    requires 8 * (j - i - 1) <= k.Capacity() - k.size
    ensures !Run(k, fs[..j]).spoilt
    decreases j
  {
    hide Run, Step, Reaches, IsData, IsAtti, Moved;
    RunPrefix(k, fs, j - 1);
    if j == i + 1 {
      HeaderStep(k, Run(k, fs[..i]), fs[i]);
    } else {
      StaysUnspoilt(k, fs, i, j - 1);
      MessageOpen(k, fs, i, j - 1);
      DataStep(k, Run(k, fs[..j - 1]), fs[j - 1]);
      ReachesAt(k, 8 * (j - i - 2));
    }
  }
}
