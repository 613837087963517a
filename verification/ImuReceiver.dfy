/** can_scoket1.c: the receiver that fills the ring, holding the mutex from a message's header to its
    end, and the reader that takes the newest published record. */
module ImuReceiver {
  import opened Options
  import opened Arithmetic
  import opened CanFrames
  import opened ImuHistory
  import opened ImuRing

  /** A frame fits between an aligned position and the end of the ring. */
  lemma RingAligned(k: Link, s: nat)
    requires k.Valid() && s < k.Capacity() && s % 8 == 0
    ensures s + 8 <= k.Capacity()
  {
    assert k.Capacity() == 8 * (MAX_IMU_NUM * (k.size / 8));
  }

  /** A data frame keeps the message open. */
  ghost predicate StepsOn(k: Link, h: History, f: CanFrame)
    requires k.Valid()
  {
    && |h.place| == k.size && (h.cur.Some? ==> |h.cur.value| % 8 == 0)
    && Step(k, h, f).cur.Some?
  }

  lemma IsDataLength(f: CanFrame)
    ensures IsData(f) ==> f.dlc == 8
  {
  }

  class Receiver {
    const link: Link              // sizeof(imu_body), key and Check4Q
    const ring: array<octet>      // P_IMU_DATA
    var fetchPos: int
    var storePos: int
    var ready: bool               // bReady
    var isAtti: bool              // bIsAtti
    var locked: bool              // imu_lock is taken
    ghost var history: History

    /** What every frame stream leaves true, well formed or not: all positions lie inside the ring,
        the lock is held exactly while a message is being received, and no record is half stored
        when it is free. */
    ghost predicate Bounded()
      reads this
    {
      && link.Valid()
      && ring.Length == link.Capacity() + link.size
      && 0 <= storePos < link.Capacity() && storePos % 8 == 0
      && (fetchPos == -1 || (0 <= fetchPos < link.Capacity() && fetchPos % link.size == 0 && fetchPos % 8 == 0))
      && (isAtti || ready ==> fetchPos >= 0)
      && locked == isAtti
      && (!locked ==> storePos % link.size == 0)
      && isAtti == history.cur.Some?
    }

    /** The variables and the ring represent the message history. */
    ghost predicate Valid()
      reads this, ring
    {
      Bounded() && Shows(link, history, ring[..], fetchPos, storePos, ready)
    }

    constructor (k: Link)
      requires k.Valid()
      ensures Valid() && fresh(ring) && !locked
      ensures link == k && history == Empty(k)
    {
      link := k;
      ring := new octet[(MAX_IMU_NUM + 1) * k.size](_ => 0);
      fetchPos, storePos, ready, isAtti, locked := -1, 0, false, false, false;
      history := Empty(k);
    }

    /** A header arrives while no message is open: the lock is taken and the start remembered. */
    method OpenMessage(f: CanFrame)
      requires Valid() && !isAtti && f.dlc == 8 && IsAtti(f.data)
      modifies this
      ensures Valid() && isAtti && fetchPos == storePos == old(storePos)
      ensures history == Step(link, old(history), f)
    {
      hide Shows, LastOf;
      ShowsStepable(link, history, ring[..], fetchPos, storePos, ready);
      HeaderShows(link, history, f, ring[..], fetchPos, storePos, ready);
      isAtti := true;
      assert !locked;
      locked := true;
      fetchPos := storePos;
      history := Step(link, history, f);
    }

    /** A stray header or tail inside a message drops the message. */
    method DropMessage(f: CanFrame)
      requires Valid() && isAtti && f.dlc == 8 && !IsData(f)
      modifies this
      ensures Valid() && !isAtti && storePos == fetchPos == old(fetchPos)
      ensures history == Step(link, old(history), f)
    {
      hide Shows, Flatten;
      ShowsStepable(link, history, ring[..], fetchPos, storePos, ready);
      AbortShows(link, history, ring[..], fetchPos, storePos, ready);
      storePos := fetchPos;
      isAtti, locked := false, false;
      history := Step(link, history, f);
    }

    /** The storing loop: the frame, with the key removed, at the store position. */
    method StoreFrame(f: CanFrame)
      requires f.dlc == 8 && 0 <= storePos && storePos + 8 <= ring.Length
      modifies this`storePos, ring
      ensures storePos == old(storePos) + 8
      ensures Stored(old(ring[..]), ring[..], old(storePos), Decode(f.data, link.key))
    {
      for i := 0 to f.dlc
        invariant storePos == old(storePos) + i
        invariant forall j :: 0 <= j < ring.Length && !(old(storePos) <= j < storePos) ==> ring[j] == old(ring[j])
        invariant forall j :: old(storePos) <= j < storePos ==> ring[j] == Decode(f.data, link.key)[j - old(storePos)]
      {
        ring[storePos] := f.data[i] ^ link.key;
        storePos := storePos + 1;
      }
    }

    /** The frame stored in the ring shows the history one step on. */
    method StoreBody(f: CanFrame)
      requires Valid() && isAtti && IsData(f)
      modifies this`storePos, ring
      ensures storePos == old(storePos) + 8 <= link.Capacity()
      ensures StepsOn(link, history, f)
      ensures var wraps := storePos == link.Capacity();
        Shows(link, Step(link, history, f), ring[..], fetchPos, if wraps then 0 else storePos, ready || wraps)
    {
      hide Shows, Step, Stored, Decode, IsData, Flatten, Link.Capacity;
      ghost var bytes, s := ring[..], storePos;
      RingAligned(link, s);
      ShowsStepable(link, history, bytes, fetchPos, s, ready);
      DataStep(link, history, f);
      IsDataLength(f);
      StoreFrame(f);
      FrameShows(link, history, f, bytes, ring[..], fetchPos, s, ready);
    }

    /** A frame of the body is stored; the end of the ring leads back to its start. */
    method ExtendMessage(f: CanFrame)
      requires Valid() && isAtti && IsData(f)
      modifies this, ring
      ensures Valid() && isAtti && fetchPos == old(fetchPos)
      ensures storePos == if old(storePos) + 8 == link.Capacity() then 0 else old(storePos) + 8
      ensures history == Step(link, old(history), f)
    {
      hide Shows, Step, IsData, Link.Capacity;
      ShowsStepable(link, history, ring[..], fetchPos, storePos, ready);
      StoreBody(f);
      if link.Capacity() <= storePos {
        storePos, ready := 0, true;
      }
      history := Step(link, history, f);
    }

    /** The tests at the end of a message, and the rollback when one of them fails. */
    method Settle(f: CanFrame)
      requires link.Valid() && 0 <= storePos && 0 <= fetchPos && fetchPos + link.size <= ring.Length
      modifies this`storePos
      ensures storePos == if Keeps(link, f, ring[..], fetchPos, old(storePos)) then old(storePos) else fetchPos
    {
      if f.dlc == 4 {
        if storePos % link.size != 0 || !IsTail(f.data) {
          storePos := fetchPos;
        }
        if !link.check(ring[fetchPos..fetchPos + link.size]) {
          storePos := fetchPos;
        }
      } else {
        storePos := fetchPos;
      }
    }

    /** The end of a message: keeps the body when it is whole, closed and plausible, or goes back. */
    method CloseMessage(f: CanFrame)
      requires Valid() && isAtti && f.dlc != 8
      modifies this
      ensures Valid() && !isAtti && fetchPos == old(fetchPos)
      ensures storePos == fetchPos || storePos == old(storePos)
      ensures history == Step(link, old(history), f)
    {
      hide Shows, Flatten, Decode, IsTail, IsHead, Acceptable;
      MultipleBelow(fetchPos, link.size, MAX_IMU_NUM);
      ShowsStepable(link, history, ring[..], fetchPos, storePos, ready);
      CloseShows(link, history, f, ring[..], fetchPos, storePos, ready);
      Settle(f);
      isAtti, locked := false, false;
      history := Step(link, history, f);
    }

    /** One turn of the receive loop. */
    method OnFrame(f: CanFrame)
      requires Valid()
      modifies this, ring
      ensures Valid()
      ensures history == Step(link, old(history), f)
    {
      if !isAtti {
        if f.dlc == 8 && IsAtti(f.data) {
          OpenMessage(f);
        }
      } else if f.dlc == 8 {
        if IsHead(f.data) || IsTail(f.data[4..]) {
          DropMessage(f);
        } else {
          ExtendMessage(f);
        }
      } else {
        CloseMessage(f);
      }
    }

    /** The reader: it gets the lock only when no message is open, and gives it back. */
    method GetIMU() returns (imu: Option<seq<octet>>)
      requires Valid() && !locked
      modifies this`locked
      ensures Valid() && !locked
      ensures imu == Answer(history)
    {
      locked := true;
      imu := None;
      if ready {
        MultipleBelow(fetchPos, link.size, MAX_IMU_NUM);
        var getPos := if fetchPos == 0 then (MAX_IMU_NUM - 1) * link.size else fetchPos - link.size;
        imu := Some(ring[getPos..getPos + link.size]);
      }
      locked := false;
    }

    /** One step of either thread. A request made while a message is open waits. */
    method OnEvent(e: Event) returns (answer: seq<Option<seq<octet>>>)
      requires Valid()
      modifies this, ring
      ensures Valid() && history == AfterEvent(link, old(history), e)
      ensures answer == Answered(old(history), e)
    {
      answer := [];
      match e
      case Arrives(f) =>
        OnFrame(f);
      case Asks =>
        if !locked {
          var imu := GetIMU();
          answer := [imu];
        }
    }

    /** Receiver and reader in any interleaving, on any frame stream. */
    method Serve(events: seq<Event>) returns (answers: seq<Option<seq<octet>>>)
      requires Valid() && history == Empty(link)
      modifies this, ring
      ensures Valid() && history == Run(link, Frames(events))
      ensures answers == Answers(link, events)
    {
      hide Shows, Answered;
      answers := [];
      for n := 0 to |events|
        invariant Valid() && history == Run(link, Frames(events[..n]))
        invariant answers == Answers(link, events[..n])
      {
        AnswersSnoc(link, events[..n], events[n]);
        assert events[..n + 1] == events[..n] + [events[n]];
        var answer := OnEvent(events[n]);
        answers := answers + answer;
      }
      assert events[..|events|] == events;
    }
  }

  /** What happens to the two threads: a frame arrives, or the reader asks. */
  datatype Event = Arrives(f: CanFrame) | Asks

  function Frames(events: seq<Event>): seq<CanFrame> {
    if events == [] then []
    else
      Frames(events[..|events| - 1])
      + match events[|events| - 1] { case Arrives(f) => [f] case Asks => [] }
  }

  function AfterEvent(k: Link, h: History, e: Event): (h': History)
    requires k.Valid() && |h.place| == k.size && (h.cur.Some? ==> |h.cur.value| % 8 == 0)
  {
    match e case Arrives(f) => Step(k, h, f) case Asks => h
  }

  /** One answer is given for each request made while no message is open. */
  function Answered(h: History, e: Event): seq<Option<seq<octet>>> {
    if e.Asks? && h.cur.None? then [Answer(h)] else []
  }

  function Answers(k: Link, events: seq<Event>): seq<Option<seq<octet>>>
    requires k.Valid()
  {
    if events == [] then []
    else
      var front := events[..|events| - 1];
      Answers(k, front) + Answered(Run(k, Frames(front)), events[|events| - 1])
  }

  lemma AnswersSnoc(k: Link, events: seq<Event>, e: Event)
    requires k.Valid()
    ensures var h := Run(k, Frames(events));
      && Run(k, Frames(events + [e])) == AfterEvent(k, h, e)
      && Answers(k, events + [e]) == Answers(k, events) + Answered(h, e)
  {
    assert (events + [e])[..|events|] == events;
    match e
    case Arrives(f) => RunSnoc(k, Frames(events), f);
    case Asks => assert Frames(events + [e]) == Frames(events);
  }
}
