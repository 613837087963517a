/** can_scoket1.c: collecting the mode message, which carries the XOR key, from the frame stream. */
module KeyFrames {
  import opened Options
  import opened CanFrames

  function Payload(fs: seq<CanFrame>): seq<octet> {
    if fs == [] then [] else Payload(fs[..|fs| - 1]) + fs[|fs| - 1].data[..fs[|fs| - 1].dlc]
  }

  lemma PayloadSnoc(fs: seq<CanFrame>, i: nat, n: nat)
    requires i <= n < |fs|
    ensures Payload(fs[i..n + 1]) == Payload(fs[i..n]) + fs[n].data[..fs[n].dlc]
    ensures i == n ==> Payload(fs[i..n]) == []
  {
    assert fs[i..n + 1][..n - i] == fs[i..n];
  }

  predicate Opens(f: CanFrame) {
    f.dlc == 8 && IsMcMode(f.data)
  }

  /** Where the collection in progress after the first n frames began, if there is one. A collection
      that overshoots the message size, or ends on it without a tail, is given up. */
  function Begun(fs: seq<CanFrame>, n: nat, size: nat): (r: Option<nat>)
    requires n <= |fs|
    ensures r.Some? ==> r.value < n && Opens(fs[r.value])
  {
    if n == 0 then None
    else
      var before := Begun(fs, n - 1, size);
      var start := if before.Some? then before else if Opens(fs[n - 1]) then Some(n - 1) else None;
      if start.None? then None
      else
        var got := |Payload(fs[start.value..n])|;
        if got > size || (got == size && !IsTail(fs[n - 1].data[4..])) then None else start
  }

  /** Frames i .. n are one complete mode message. */
  ghost predicate Complete(fs: seq<CanFrame>, i: nat, n: nat, size: nat) {
    && i < n <= |fs| && Opens(fs[i])
    && |Payload(fs[i..n])| == size
    && IsTail(fs[n - 1].data[4..])
    && forall m :: i < m < n ==> |Payload(fs[i..m])| < size
  }

  ghost predicate Collected(fs: seq<CanFrame>, n: nat, size: nat)
    requires n <= |fs|
  {
    Begun(fs, n, size).Some? && |Payload(fs[Begun(fs, n, size).value..n])| == size
  }

  /** A collection in progress has stayed below the message size since it began. */
  lemma {:induction false} BegunIsShort(fs: seq<CanFrame>, n: nat, size: nat, m: nat)
    requires m < n <= |fs| && size > 0 && Begun(fs, n, size).Some?
    requires forall c :: 0 < c < n ==> !Collected(fs, c, size)
    requires Begun(fs, n, size).value < m
    ensures |Payload(fs[Begun(fs, n, size).value..m])| < size
  {
    assert Begun(fs, n - 1, size) == Begun(fs, n, size);
    if m < n - 1 {
      BegunIsShort(fs, n - 1, size, m);
    } else {
      assert !Collected(fs, m, size);
    }
  }

  /** The first collection to reach the message size is a complete mode message. */
  lemma CollectedIsComplete(fs: seq<CanFrame>, n: nat, size: nat)
    requires 0 < n <= |fs| && size > 0 && Collected(fs, n, size)
    requires forall m :: 0 < m < n ==> !Collected(fs, m, size)
    ensures Complete(fs, Begun(fs, n, size).value, n, size)
  {
    forall m | Begun(fs, n, size).value < m < n
      ensures |Payload(fs[Begun(fs, n, size).value..m])| < size
    {
      BegunIsShort(fs, n, size, m);
    }
  }

  /** A complete mode message that begins while nothing is being collected stays the one collected ... */
  lemma {:induction false} CompleteStaysBegun(fs: seq<CanFrame>, i: nat, n: nat, size: nat, m: nat)
    requires Complete(fs, i, n, size) && Begun(fs, i, size).None? && i < m <= n
    ensures Begun(fs, m, size) == Some(i)
    decreases m
  {
    if m > i + 1 {
      CompleteStaysBegun(fs, i, n, size, m - 1);
    }
  }

  /** ... to its end: no complete mode message is missed, except inside another collection. */
  lemma CompleteIsCollected(fs: seq<CanFrame>, i: nat, n: nat, size: nat)
    requires Complete(fs, i, n, size) && Begun(fs, i, size).None?
    ensures Collected(fs, n, size)
  {
    CompleteStaysBegun(fs, i, n, size, n);
  }

  /** A collection that began at i goes on after frame m - 1: it is short of the size, or ends on it with a
      tail. */
  ghost predicate GoesOn(fs: seq<CanFrame>, i: nat, m: nat, size: nat)
    requires i < m <= |fs|
  {
    var got := |Payload(fs[i..m])|;
    got < size || (got == size && IsTail(fs[m - 1].data[4..]))
  }

  /** Which collection is in progress: the one that a header began while none was, and that has not been given
      up since. The frame that makes a collection fail never begins another. */
  lemma {:induction false} BegunExactly(fs: seq<CanFrame>, i: nat, n: nat, size: nat)
    requires i < n <= |fs|
    ensures Begun(fs, n, size) == Some(i) <==>
      Opens(fs[i]) && Begun(fs, i, size).None? && forall m :: i < m <= n ==> GoesOn(fs, i, m, size)
    decreases n
  {
    hide Payload, IsTail, Opens;
    if n > i + 1 {
      BegunExactly(fs, i, n - 1, size);
      assert (forall m :: i < m <= n ==> GoesOn(fs, i, m, size)) <==>
        (forall m :: i < m <= n - 1 ==> GoesOn(fs, i, m, size)) && GoesOn(fs, i, n, size);
    } else {
      assert (forall m :: i < m <= n ==> GoesOn(fs, i, m, size)) <==> GoesOn(fs, i, n, size);
    }
  }

  /** The copying loop: the received octets of the frame go to position cnt. */
  method Append(frame: CanFrame, pMode: array<octet>, cnt: nat)
    requires cnt + frame.dlc <= pMode.Length
    modifies pMode
    ensures pMode[..cnt + frame.dlc] == old(pMode[..cnt]) + frame.data[..frame.dlc]
    ensures pMode[cnt + frame.dlc..] == old(pMode[cnt + frame.dlc..])
  {
    for i := 0 to frame.dlc
      invariant pMode[..cnt + i] == old(pMode[..cnt]) + frame.data[..i]
      invariant pMode[cnt + i..] == old(pMode[cnt + i..])
    {
      pMode[cnt + i] := frame.data[i];
    }
  }

  /** GetKey: reads frames until a whole mode message is in pMode, or the stream ends. */
  method GetKey(fs: seq<CanFrame>, pMode: array<octet>) returns (found: bool, used: nat)
    requires pMode.Length > 0
    modifies pMode
    ensures used <= |fs|
    ensures found <==> exists n :: 0 < n <= |fs| && Collected(fs, n, pMode.Length)
    ensures found ==> 0 < used && forall n :: 0 < n < used ==> !Collected(fs, n, pMode.Length)
    ensures found ==> exists i: nat :: Complete(fs, i, used, pMode.Length) && pMode[..] == Payload(fs[i..used])
  {
    hide Payload, Complete, IsMcMode, IsTail;
    var size := pMode.Length;
    var bIs, cnt: nat := false, 0;
    used := 0;
    while used < |fs|
      invariant used <= |fs|
      invariant bIs == Begun(fs, used, size).Some?
      invariant bIs ==> cnt < size && pMode[..cnt] == Payload(fs[Begun(fs, used, size).value..used])
      invariant forall n :: 0 < n <= used ==> !Collected(fs, n, size)
    {
      var frame := fs[used];
      ghost var start := if bIs then Begun(fs, used, size).value else used;
      PayloadSnoc(fs, start, used);
      used := used + 1;
      if !bIs && frame.dlc == 8 {
        bIs := IsMcMode(frame.data);
        cnt := 0;
      }
      if bIs {
        if cnt + frame.dlc > size {
          bIs, cnt := false, 0;
        } else {
          Append(frame, pMode, cnt);
          cnt := cnt + frame.dlc;
        }
        if cnt == size {
          if IsTail(frame.data[4..]) {
            CollectedIsComplete(fs, used, size);
            assert Collected(fs, used, size) && pMode[..] == pMode[..cnt];
            return true, used;
          } else {
            bIs, cnt := false, 0;
          }
        }
      }
    }
    found := false;
  }
}
