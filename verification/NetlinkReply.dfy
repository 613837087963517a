/** can_scoket2.c and can-setup.cc: walking the messages of a reply datagram until the acknowledgement
    (the NLMSG_ERROR message of section 2.3.2.2 of RFC 3549) is found. */
module NetlinkReply {
  import opened Options
  import opened Bytes
  import opened Attributes

  const HDR: nat := 16                 // sizeof(struct nlmsghdr)
  const ERR: nat := 20                 // sizeof(struct nlmsgerr)
  const NLMSG_ERROR: nat := 2

  /** Returns: send_mod_request returns this code. Again: it waits for another datagram.
      Stray: it reads a header outside its buffer, where C promises nothing. */
  datatype Outcome = Returns(code: int) | Again | Stray

  /** The value of a 32-bit result stored in an int. */
  function Int32(x: int): (r: int)
    ensures -0x8000_0000 <= r < 0x8000_0000
    ensures -0x8000_0000 <= x < 0x8000_0000 ==> r == x
    ensures 0x8000_0000 <= x < 0x1_8000_0000 ==> r == x - 0x1_0000_0000
    ensures -0x1_8000_0000 <= x < -0x8000_0000 ==> r == x + 0x1_0000_0000
  {
    (x + 0x8000_0000) % 0x1_0000_0000 - 0x8000_0000
  }

  /** NLMSG_ALIGN of an int, computed unsigned. */
  function AlignU(len: int): (r: nat)
    ensures 0 <= len < 0x7fff_fff0 ==> r == Align4(len)
  {
    ((len + 3) % 0x1_0000_0000) / 4 * 4
  }

  /** A length field whose signed reading, less the header, wraps to a large positive number. */
  predicate Wraps(len: nat) {
    0x8000_0000 <= len < 0x8000_0010
  }

  // ---------------------------------------------------------------- what a reply means

  /** The error message at position p is taken for success when it is long enough and carries code 0. */
  function ErrorOutcome(buf: seq<byte>, p: nat): Outcome
    requires p + HDR <= |buf|
  {
    if Read32(buf, p) < HDR + ERR then Returns(-1)
    else if p + HDR + 4 > |buf| then Stray
    else Returns(if Read32(buf, p + HDR) == 0 then 0 else -1)
  }

  /** What the walk over a datagram answers when it stands at h with `left` bytes to go. The unsigned test
      of `left` lets a negative value through. */
  function Reply(buf: seq<byte>, h: nat, left: int): Outcome
    requires left > 0 ==> h + left <= |buf|
    decreases |buf| - h
  {
    if 0 <= left < HDR then Again
    else if h + HDR > |buf| then Stray
    else
      var len := Read32(buf, h);
      if !Wraps(len) && (len < HDR || len > left) then Returns(-1)
      else if Read16(buf, h + 4) == NLMSG_ERROR then ErrorOutcome(buf, h)
      else if Wraps(len) then Stray
      else Reply(buf, h + Align4(len), left - Align4(len))
  }

  /** Whether a complete message stands at h. */
  predicate Complete(buf: seq<byte>, h: nat, left: int)
    requires left > 0 ==> h + left <= |buf|
  {
    left >= HDR && HDR <= Read32(buf, h) <= left
  }

  /** Positions of the complete messages, one behind the other, in the `left` bytes from h on. */
  function Chain(buf: seq<byte>, h: nat, left: int): (c: seq<nat>)
    requires left > 0 ==> h + left <= |buf|
    ensures forall i :: 0 <= i < |c| ==> c[i] + HDR <= |buf|
    decreases if left > 0 then left else 0
  {
    if !Complete(buf, h, left) then []
    else [h] + Chain(buf, h + Align4(Read32(buf, h)), left - Align4(Read32(buf, h)))
  }

  /** What is left of the received bytes behind the complete messages: a negative number when the last of
      them is not padded. */
  function Rest(buf: seq<byte>, h: nat, left: int): (r: int)
    requires left > 0 ==> h + left <= |buf|
    ensures r <= left && (left >= 0 ==> r >= -3)
    decreases if left > 0 then left else 0
  {
    if !Complete(buf, h, left) then left
    else
      var n := Align4(Read32(buf, h));
      Rest(buf, h + n, left - n)
  }

  lemma {:induction false} RestAligned(buf: seq<byte>, h: nat, left: int)
    requires (left > 0 ==> h + left <= |buf|) && left % 4 == 0
    ensures Rest(buf, h, left) % 4 == 0
    decreases if left > 0 then left else 0
  {
    hide Read32;
    if Complete(buf, h, left) {
      var n := Align4(Read32(buf, h));
      RestAligned(buf, h + n, left - n);
    }
  }

  /** The first of the messages that reports an error or acknowledges. */
  function FirstError(buf: seq<byte>, c: seq<nat>): (r: Option<nat>)
    requires forall i :: 0 <= i < |c| ==> c[i] + HDR <= |buf|
    ensures r.Some? ==> r.value in c && r.value + HDR <= |buf|
  {
    if c == [] then None
    else if Read16(buf, c[0] + 4) == NLMSG_ERROR then Some(c[0])
    else FirstError(buf, c[1..])
  }

  /** The first message of a chain, and what the walk makes of it. */
  lemma ChainHead(buf: seq<byte>, h: nat, left: int)
    requires |buf| < 0x7fff_0000 && (left > 0 ==> h + left <= |buf|)
    requires Chain(buf, h, left) != []
    ensures h + HDR <= |buf| && HDR <= Read32(buf, h) <= left
    ensures var n := Align4(Read32(buf, h)); Chain(buf, h, left) == [h] + Chain(buf, h + n, left - n)
    ensures Reply(buf, h, left) ==
      if Read16(buf, h + 4) == NLMSG_ERROR then ErrorOutcome(buf, h)
      else Reply(buf, h + Align4(Read32(buf, h)), left - Align4(Read32(buf, h)))
    ensures var n := Align4(Read32(buf, h)); Rest(buf, h, left) == Rest(buf, h + n, left - n)
  {
  }

  /** The first complete error message is the one that the walk stops at, and it lies in the buffer. */
  lemma {:induction false} FirstErrorReached(buf: seq<byte>, h: nat, left: int)
    requires |buf| < 0x7fff_0000 && (left > 0 ==> h + left <= |buf|)
    requires FirstError(buf, Chain(buf, h, left)).Some?
    ensures var p := FirstError(buf, Chain(buf, h, left)).value;
      Reply(buf, h, left) == ErrorOutcome(buf, p) && p + Read32(buf, p) <= |buf|
    decreases if left > 0 then left else 0
  {
    hide Align4, Read16, Read32, ErrorOutcome, Chain, Reply, Rest;
    ChainHead(buf, h, left);
    var n := Align4(Read32(buf, h));
    assert Chain(buf, h, left)[1..] == Chain(buf, h + n, left - n);
    if Read16(buf, h + 4) != NLMSG_ERROR {
      FirstErrorReached(buf, h + n, left - n);
    }
  }

  /** A reply with a complete error message is answered by the first one: 0 exactly when it is long enough
      and carries code 0, and -1 otherwise. */
  lemma FirstErrorDecides(buf: seq<byte>, h: nat, left: int)
    requires |buf| < 0x7fff_0000 && (left > 0 ==> h + left <= |buf|)
    requires FirstError(buf, Chain(buf, h, left)).Some?
    ensures var p := FirstError(buf, Chain(buf, h, left)).value;
      Reply(buf, h, left) ==
        Returns(if Read32(buf, p) >= HDR + ERR && p + HDR + 4 <= |buf| && Read32(buf, p + HDR) == 0 then 0 else -1)
  {
    hide Read32, Chain, Reply;
    FirstErrorReached(buf, h, left);
  }

  /** A reply without a complete error message is answered at the end of its messages: with less than a
      header left the walk waits for more; a negative rest, or one that does not hold the message that begins
      it, leads to a header that may lie outside the buffer; inside, the answer is -1, unless the length there
      wraps, which is taken for a message of any size. */
  lemma {:induction false} NoErrorMessage(buf: seq<byte>, h: nat, left: int)
    requires |buf| < 0x7fff_0000 && (left > 0 ==> h + left <= |buf|)
    requires FirstError(buf, Chain(buf, h, left)).None?
    ensures var rest := Rest(buf, h, left); var end := h + left - rest;
      && end >= h && (rest > 0 ==> end + rest <= |buf|)
      && (0 <= rest < HDR ==> Reply(buf, h, left) == Again)
      && (rest < 0 || rest >= HDR ==>
           && (end + HDR > |buf| ==> Reply(buf, h, left) == Stray)
           && (end + HDR <= |buf| && !Wraps(Read32(buf, end)) ==> Reply(buf, h, left) == Returns(-1))
           && (end + HDR <= |buf| && Wraps(Read32(buf, end)) && Read16(buf, end + 4) != NLMSG_ERROR ==>
                Reply(buf, h, left) == Stray)
           && (end + HDR <= |buf| && Wraps(Read32(buf, end)) && Read16(buf, end + 4) == NLMSG_ERROR ==>
                Reply(buf, h, left) ==
                  if end + HDR + 4 > |buf| then Stray
                  else Returns(if Read32(buf, end + HDR) == 0 then 0 else -1)))
    decreases if left > 0 then left else 0
  {
    hide Align4, Read16, Read32, Reply, Rest, Chain;
    if Chain(buf, h, left) == [] {
      NoMessage(buf, h, left);
    } else {
      ChainHead(buf, h, left);
      var n := Align4(Read32(buf, h));
      assert Chain(buf, h, left)[1..] == Chain(buf, h + n, left - n);
      NoErrorMessage(buf, h + n, left - n);
    }
  }

  lemma NoMessage(buf: seq<byte>, h: nat, left: int)
    requires |buf| < 0x7fff_0000 && (left > 0 ==> h + left <= |buf|) && Chain(buf, h, left) == []
    ensures Rest(buf, h, left) == left
    ensures 0 <= left < HDR ==> Reply(buf, h, left) == Again
    ensures (left < 0 || left >= HDR) && h + HDR > |buf| ==> Reply(buf, h, left) == Stray
    ensures (left < 0 || left >= HDR) && h + HDR <= |buf| ==>
      Reply(buf, h, left) ==
        if !Wraps(Read32(buf, h)) then Returns(-1)
        else if Read16(buf, h + 4) != NLMSG_ERROR || h + HDR + 4 > |buf| then Stray
        else Returns(if Read32(buf, h + HDR) == 0 then 0 else -1)
  {
  }

  /** The answer is success only for an acknowledgement: an error message, one of the complete ones or one
      whose length wraps behind them, that is long enough for its code and carries code 0. */
  lemma SuccessIsAcknowledged(buf: seq<byte>, received: int)
    requires |buf| < 0x7fff_0000 && -1 <= received <= |buf|
    ensures Reply(buf, 0, received) == Returns(0) ==>
      exists p: nat ::
        && p + 20 <= |buf| && Read16(buf, p + 4) == 2 && Read32(buf, p) >= 36 && Read32(buf, p + 16) == 0
        && (p in Chain(buf, 0, received) || p == received - Rest(buf, 0, received))
  {
    hide Reply, Rest, Chain, Read16, Read32;
    var c := Chain(buf, 0, received);
    if FirstError(buf, c).Some? {
      FirstErrorDecides(buf, 0, received);
      FirstErrorKind(buf, c);
    } else {
      NoErrorMessage(buf, 0, received);
    }
  }

  lemma FirstErrorKind(buf: seq<byte>, c: seq<nat>)
    requires forall i :: 0 <= i < |c| ==> c[i] + HDR <= |buf|
    ensures FirstError(buf, c).Some? ==> Read16(buf, FirstError(buf, c).value + 4) == NLMSG_ERROR
  {
  }

  /** When recvmsg fails with -1 the walk still reads the header at the start of the buffer, and answers -1
      unless the length there wraps. */
  lemma FailedReceive(buf: seq<byte>)
    requires HDR <= |buf| < 0x7fff_0000 && !Wraps(Read32(buf, 0))
    ensures Reply(buf, 0, -1) == Returns(-1)
  {
    assert Chain(buf, 0, -1) == [];
    NoErrorMessage(buf, 0, -1);
  }

  /** Without an error message and a length that wraps, the walk reads outside its buffer exactly when the last
      message is not padded and the header behind it does not fit; it waits exactly when less than a header is
      left; and it answers -1 in every other case. */
  lemma StraysExactly(buf: seq<byte>, received: int)
    requires |buf| < 0x7fff_0000 && -1 <= received <= |buf| && FirstError(buf, Chain(buf, 0, received)).None?
    requires var end := received - Rest(buf, 0, received); end + HDR <= |buf| ==> !Wraps(Read32(buf, end))
    ensures var rest := Rest(buf, 0, received);
      && (Reply(buf, 0, received) == Stray <==> rest < 0 && received - rest + HDR > |buf|)
      && (Reply(buf, 0, received) == Again <==> 0 <= rest < HDR)
      && (Reply(buf, 0, received) == Returns(-1) <==> rest >= HDR || (rest < 0 && received - rest + HDR <= |buf|))
  {
    hide Reply, Rest, Chain, Read32;
    NoErrorMessage(buf, 0, received);
  }

  /** With a received length that is a multiple of 4 the walk never leaves the received bytes, unless a
      length field wraps. */
  lemma AlignedNeverStrays(buf: seq<byte>, received: nat)
    requires received <= |buf| < 0x7fff_0000 && received % 4 == 0
    requires FirstError(buf, Chain(buf, 0, received)).None?
    ensures var rest := Rest(buf, 0, received);
      && 0 <= rest <= received
      && (rest < HDR ==> Reply(buf, 0, received) == Again)
      && (rest >= HDR && !Wraps(Read32(buf, received - rest)) ==> Reply(buf, 0, received) == Returns(-1))
  {
    RestAligned(buf, 0, received);
    NoErrorMessage(buf, 0, received);
  }

  const BUF_SIZE: nat := 16384         // char buf[16384]

  /** The buffer of the programs: only a length of more than 16368 bytes that is not a multiple of 4 can
      send the walk outside it, unless a length field wraps. */
  lemma StraysNearTheEnd(buf: seq<byte>, received: nat)
    requires |buf| == BUF_SIZE && received <= |buf| && FirstError(buf, Chain(buf, 0, received)).None?
    requires var end := received - Rest(buf, 0, received); end + HDR <= |buf| ==> !Wraps(Read32(buf, end))
    ensures Reply(buf, 0, received) == Stray ==> received % 4 != 0 && received > BUF_SIZE - HDR
  {
    hide Reply, Rest, Chain, FirstError, Read32;
    StraysExactly(buf, received);
    EndAligned(buf, 0, received);
  }

  /** The messages of a chain begin at multiples of 4 from its start. */
  lemma EndAligned(buf: seq<byte>, h: nat, left: int)
    requires (left > 0 ==> h + left <= |buf|) && h % 4 == 0
    ensures (h + left - Rest(buf, h, left)) % 4 == 0
    decreases if left > 0 then left else 0
  {
    if Complete(buf, h, left) {
      EndAligned(buf, h + Align4(Read32(buf, h)), left - Align4(Read32(buf, h)));
    }
  }

  /** And there it does happen: one complete message of 16381 to 16383 bytes that is not an error message. */
  lemma UnpaddedMessageStrays(buf: seq<byte>, received: nat)
    requires |buf| == BUF_SIZE && BUF_SIZE - 3 <= received < BUF_SIZE
    requires Read32(buf, 0) == received && Read16(buf, 4) != NLMSG_ERROR
    ensures FirstError(buf, Chain(buf, 0, received)).None? && Reply(buf, 0, received) == Stray
  {
    var n := Align4(received);
    assert n == BUF_SIZE;
    assert Chain(buf, n, received - n) == [];
    assert Chain(buf, 0, received) == [0];
  }

  // ---------------------------------------------------------------- the walk

  lemma AlignUPositive(len: int)
    requires -0x8000_0000 <= len < 0x8000_0000 && Int32(len - HDR) >= 0
    ensures AlignU(len) > 0
  {
    if len < 0 {
      assert (len + 3) % 0x1_0000_0000 == len + 3 + 0x1_0000_0000;
    }
  }

  /** A length that wraps leads out of the buffer, and the unsigned test lets the walk go there. */
  lemma WrappedStep(len: nat, status: int)
    requires Wraps(len) && -4 < status < 0x7fff_0000
    ensures var l := Int32(len); AlignU(l) >= 0x8000_0000 && l < status && Int32(l - HDR) >= ERR
    ensures var s := Int32(status - AlignU(Int32(len))); s < 0 || s >= HDR
  {
    var l := Int32(len);
    assert l == len - 0x1_0000_0000;
    assert (l + 3) % 0x1_0000_0000 == len + 3;
  }

  /** The inner loop of send_mod_request, for one datagram; `received` is what recvmsg returned. */
  method WalkReply(buf: seq<byte>, received: int) returns (r: Outcome)
    requires |buf| < 0x7fff_0000 && -1 <= received <= |buf|
    ensures r == Reply(buf, 0, received)
  {
    hide Int32, AlignU, Align4, Read16, Read32;
    var status, h: nat := received, 0;
    while status < 0 || status >= HDR      // the comparison is unsigned
      invariant -0x8000_0000 <= status < 0x8000_0000
      invariant (status < 0 || status >= HDR) && h > |buf| ==> Reply(buf, 0, received) == Stray
      invariant h <= |buf| ==> -4 < status && h + status == received && Reply(buf, h, status) == Reply(buf, 0, received)
      invariant h > |buf| ==> status < 0 || status >= HDR
      decreases |buf| - h
    {
      if h + HDR > |buf| {
        return Stray;
      }
      var len := Int32(Read32(buf, h));
      var l := Int32(len - HDR);
      if Wraps(Read32(buf, h)) { WrappedStep(Read32(buf, h), status); }
      if l < 0 || len > status {
        return Returns(-1);
      }
      if Read16(buf, h + 4) == NLMSG_ERROR {
        if l < ERR {
          return Returns(-1);
        }
        if h + HDR + 4 > |buf| {
          return Stray;
        }
        return if Read32(buf, h + HDR) == 0 then Returns(0) else Returns(-1);
      }
      AlignUPositive(len);
      status := Int32(status - AlignU(len));
      h := h + AlignU(len);
    }
    r := Again;
  }
}
