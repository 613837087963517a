/** can_scoket2.c and can-setup.cc: appending attributes to a netlink message in place, and filling
    the table of attribute pointers. */
module NetlinkMessage {
  import opened Options
  import opened Bytes
  import opened Attributes

  const NLMSG_HDRLEN: nat := 16

  /** The message's own length field, its first four bytes. */
  function LenField(s: seq<byte>): nat
    requires |s| >= NLMSG_HDRLEN
  {
    Read32(s, 0)
  }

  /** NLMSG_TAIL: where the next attribute goes. */
  function Tail(s: seq<byte>): nat
    requires |s| >= NLMSG_HDRLEN
  {
    Align4(LenField(s))
  }

  /** The attributes appended since position `start` are attrs, and the message ends with them. */
  ghost predicate Appended(s: seq<byte>, start: nat, attrs: seq<Attr>) {
    && NLMSG_HDRLEN <= start && start % 4 == 0
    && |s| >= NLMSG_HDRLEN && LenField(s) == start + Size(attrs) <= |s|
    && Encodes(s, start, attrs)
  }

  /** The bytes an append leaves alone: all of them except the length field and its own. */
  ghost predicate Framed(s: seq<byte>, s': seq<byte>, at: nat, n: nat) {
    && |s'| == |s| && 4 <= at && at + n <= |s|
    && s'[4..at] == s[4..at]
    && s'[at + n..] == s[at + n..]
  }

  /** Attribute fields as addattr_l stores them, truncated to 16 bits. */
  function Header(kind: nat, alen: nat): seq<byte> {
    ToLE((RTA_HDRLEN + alen) % U16, 2) + ToLE(kind % U16, 2)
  }

  /** A message buffer whose length field lies inside it, as the builder's callers keep it. */
  ghost predicate Sound(s: seq<byte>) {
    NLMSG_HDRLEN <= |s| < U32 && NLMSG_HDRLEN <= LenField(s) <= |s|
  }

  /** s with an attribute written at position at, and the length field moved past it. */
  function WithAttr(s: seq<byte>, at: nat, kind: nat, data: seq<byte>): (r: seq<byte>)
    requires NLMSG_HDRLEN <= at && at + RTA_HDRLEN + |data| <= |s|
    ensures |r| == |s|
  {
    Patch(Patch(s, at, Header(kind, |data|) + data), 0, ToLE(at + Align4(RTA_HDRLEN + |data|), 4))
  }

  lemma WithAttrFrames(s: seq<byte>, at: nat, kind: nat, data: seq<byte>)
    requires NLMSG_HDRLEN <= at && at + Align4(RTA_HDRLEN + |data|) <= |s| < U32
    ensures var s', n := WithAttr(s, at, kind, data), RTA_HDRLEN + |data|;
      && LenField(s') == at + Align4(n)
      && Framed(s, s', at, n)
      && s'[at..at + n] == Header(kind, |data|) + data
  {
    var n, d := RTA_HDRLEN + |data|, Header(kind, |data|) + data;
    var t, l := Patch(s, at, d), ToLE(at + Align4(n), 4);
    PatchInside(s, at, d);
    PatchOutside(s, at, d, 4, at);
    PatchOutside(s, at, d, at + n, |s|);
    PatchInside(t, 0, l);
    PatchOutside(t, 0, l, 4, at);
    PatchOutside(t, 0, l, at, at + n);
    PatchOutside(t, 0, l, at + n, |s|);
    LoadStoredWidths(at + Align4(n));
  }

  /** s' is s after one append: the length field moves to the aligned end of the attribute, whose bytes
      are the truncated header and the data; every other byte is as before. */
  ghost predicate IsAppend(s: seq<byte>, s': seq<byte>, kind: nat, data: seq<byte>)
    requires Sound(s)
  {
    var at, n := Tail(s), RTA_HDRLEN + |data|;
    && at + Align4(n) <= |s| == |s'|
    && LenField(s') == at + Align4(n)
    && Framed(s, s', at, n)
    && s'[at..at + n] == Header(kind, |data|) + data
  }

  /** An append determines the whole message. */
  lemma IsAppendUnique(s: seq<byte>, s': seq<byte>, s'': seq<byte>, kind: nat, data: seq<byte>)
    requires Sound(s) && IsAppend(s, s', kind, data) && IsAppend(s, s'', kind, data)
    ensures s' == s''
  {
    var at, n := Tail(s), RTA_HDRLEN + |data|;
    StoreLoaded(s'[0..4]);
    StoreLoaded(s''[0..4]);
    assert s' == s'[0..4] + s'[4..at] + s'[at..at + n] + s'[at + n..];
    assert s'' == s''[0..4] + s''[4..at] + s''[at..at + n] + s''[at + n..];
  }

  /** The stored header reads back as the type and length, provided both fit 16 bits. */
  lemma HeaderReadsBack(s: seq<byte>, at: nat, a: Attr)
    requires at + a.Footprint() <= |s|
    requires s[at..at + a.Len()] == Header(a.kind, |a.payload|) + a.payload
    ensures Holds(s, at, a) <==> a.Fits()
  {
    hide FromLE, ToLE;
    var d := Header(a.kind, |a.payload|) + a.payload;
    PartOf(s, at, d, 0, 2);
    PartOf(s, at, d, 2, 2 + 2);
    PartOf(s, at, d, RTA_HDRLEN, a.Len());
    assert d[0..2] == ToLE(a.Len() % U16, 2) && d[2..4] == ToLE(a.kind % U16, 2) && d[4..] == a.payload;
    LoadStoredWidths(a.Len() % U16);
    LoadStoredWidths(a.kind % U16);
  }

  /** Appending to a message whose attributes are attrs gives one whose attributes are attrs + [a]. */
  lemma AppendExtends(s: seq<byte>, s': seq<byte>, start: nat, attrs: seq<Attr>, a: Attr)
    requires Sound(s) && Appended(s, start, attrs) && a.Fits()
    requires IsAppend(s, s', a.kind, a.payload)
    ensures Sound(s') && Appended(s', start, attrs + [a])
    ensures Size(attrs + [a]) == Size(attrs) + a.Footprint() && s'[4..start] == s[4..start]
  {
    hide Encodes, LenField, ToLE, Size;
    SizeAligned(attrs);
    assert Tail(s) == start + Size(attrs);
    EqualParts(s, s', 4, Tail(s), 4, start);
    ExtendedAt(s, s', start, attrs, a);
  }

  lemma ExtendedAt(s: seq<byte>, s': seq<byte>, start: nat, attrs: seq<Attr>, a: Attr)
    requires 4 <= start && start + Size(attrs) + a.Footprint() <= |s| && Encodes(s, start, attrs) && a.Fits()
    requires var at := start + Size(attrs);
      Framed(s, s', at, a.Len()) && s'[at..at + a.Len()] == Header(a.kind, |a.payload|) + a.payload
    ensures Encodes(s', start, attrs + [a])
    ensures Size(attrs + [a]) == Size(attrs) + a.Footprint()
  {
    var at := start + Size(attrs);
    EqualParts(s, s', 4, at, start, at);
    EncodesElsewhere(s, s', start, attrs);
    HeaderReadsBack(s', at, a);
    EncodesSnoc(s', start, attrs, a);
    SizeSnoc(attrs, a);
  }

  lemma SizeAligned(attrs: seq<Attr>)
    ensures Size(attrs) % 4 == 0
  {
  }

  /** The stores of a successful append. */
  method PutAttr(n: array<byte>, rta: nat, kind: nat, data: seq<byte>, nlmsgLen: nat)
    requires NLMSG_HDRLEN <= rta && rta + RTA_HDRLEN + |data| <= n.Length
    requires nlmsgLen == rta + Align4(RTA_HDRLEN + |data|)
    modifies n
    ensures n[..] == WithAttr(old(n[..]), rta, kind, data)
  {
    hide Patch, ToLE;
    Store(n, rta, Header(kind, |data|));
    Store(n, rta + RTA_HDRLEN, data);
    PatchTwice(old(n[..]), rta, Header(kind, |data|), data);
    Store(n, 0, ToLE(nlmsgLen, 4));
  }

  /** addattr_l: appends one attribute, or fails and changes nothing. */
  method AddAttrL(n: array<byte>, maxlen: nat, kind: nat, data: seq<byte>) returns (r: int)
    requires Sound(n[..]) && maxlen <= n.Length
    modifies n
    ensures if old(Tail(n[..])) + Align4(RTA_HDRLEN + |data|) <= maxlen
            then r == 0 && IsAppend(old(n[..]), n[..], kind, data)
            else r == -1 && n[..] == old(n[..])
  {
    var len := RTA_HDRLEN + |data|;
    var nlmsgLen := LenField(n[..]);
    if Align4(nlmsgLen) + Align4(len) > maxlen {
      return -1;
    }
    WithAttrFrames(n[..], Align4(nlmsgLen), kind, data);
    PutAttr(n, Align4(nlmsgLen), kind, data, Align4(nlmsgLen) + Align4(len));
    return 0;
  }

  /** addattr32: the same append, for the four bytes of a 32-bit value. */
  method AddAttr32(n: array<byte>, maxlen: nat, kind: nat, data: nat) returns (r: int)
    requires Sound(n[..]) && maxlen <= n.Length && data < U32
    modifies n
    ensures if old(Tail(n[..])) + Align4(RTA_HDRLEN + 4) <= maxlen
            then r == 0 && IsAppend(old(n[..]), n[..], kind, ToLE(data, 4))
            else r == -1 && n[..] == old(n[..])
  {
    var len := RTA_HDRLEN + 4;
    var nlmsgLen := LenField(n[..]);
    if Align4(nlmsgLen) + len > maxlen {
      return -1;
    }
    WithAttrFrames(n[..], Align4(nlmsgLen), kind, ToLE(data, 4));
    PutAttr(n, Align4(nlmsgLen), kind, ToLE(data, 4), Align4(nlmsgLen) + len);
    return 0;
  }

  /** The attributes that find room, each tried in turn: a large one that fails does not stop a smaller
      one behind it. */
  function Greedy(attrs: seq<Attr>, room: int): seq<Attr> {
    if attrs == [] then []
    else
      var taken, a := Greedy(attrs[..|attrs| - 1], room), attrs[|attrs| - 1];
      if Size(taken) + a.Footprint() <= room then taken + [a] else taken
  }

  lemma {:induction false} GreedyTakesAll(attrs: seq<Attr>, room: int)
    requires Size(attrs) <= room
    ensures Greedy(attrs, room) == attrs
  {
    hide Size;
    if attrs != [] {
      var front, a := attrs[..|attrs| - 1], attrs[|attrs| - 1];
      assert attrs == front + [a];
      SizeSnoc(front, a);
      GreedyTakesAll(front, room);
    }
  }

  /** One append to a message that holds `added` behind position start. */
  method TryAdd(n: array<byte>, maxlen: nat, start: nat, ghost added: seq<Attr>, a: Attr) returns (ghost now: seq<Attr>)
    requires Sound(n[..]) && maxlen <= n.Length && Appended(n[..], start, added) && a.Fits()
    modifies n
    ensures now == if Size(added) + a.Footprint() <= maxlen - start then added + [a] else added
    ensures Sound(n[..]) && Appended(n[..], start, now) && n[4..start] == old(n[..])[4..start]
  {
    SizeAligned(added);
    assert Tail(n[..]) == start + Size(added);
    var r := AddAttrL(n, maxlen, a.kind, a.payload);
    now := added;
    if r == 0 {
      AppendExtends(old(n[..]), n[..], start, added, a);
      now := added + [a];
    }
  }

  /** Any sequence of appends: the message's attributes are those that found room, in order, and the
      bytes in front of them, the length field apart, are never touched. */
  method AddAll(n: array<byte>, maxlen: nat, attrs: seq<Attr>) returns (ghost added: seq<Attr>)
    requires Sound(n[..]) && maxlen <= n.Length && LenField(n[..]) % 4 == 0
    requires forall a :: a in attrs ==> a.Fits()
    modifies n
    ensures added == Greedy(attrs, maxlen - old(LenField(n[..])))
    ensures Sound(n[..]) && Appended(n[..], old(LenField(n[..])), added)
    ensures n[4..old(LenField(n[..]))] == old(n[..])[4..old(LenField(n[..]))]
  {
    var start := LenField(n[..]);
    added := [];
    for i := 0 to |attrs|
      invariant Sound(n[..]) && Appended(n[..], start, added)
      invariant n[4..start] == old(n[..])[4..start]
      invariant added == Greedy(attrs[..i], maxlen - start)
    {
      assert attrs[..i + 1][..i] == attrs[..i];
      added := TryAdd(n, maxlen, start, added, attrs[i]);
    }
    assert attrs[..|attrs|] == attrs;
  }

  /** The table after the attributes at positions `seen`: for each type the last one; the uncleared entry
      max keeps its first value when there is none. */
  ghost predicate Filled(tb: seq<Option<nat>>, first: Option<nat>, max: nat, buf: seq<byte>, seen: seq<nat>) {
    && |tb| == max + 1
    && (forall n :: 0 <= n < |seen| ==> seen[n] + RTA_HDRLEN <= |buf|)
    && (forall t :: 0 <= t < max ==> tb[t] == Last(buf, seen, t))
    && tb[max] == if Last(buf, seen, max).Some? then Last(buf, seen, max) else first
  }

  lemma FilledMore(tb: seq<Option<nat>>, tb': seq<Option<nat>>, first: Option<nat>, max: nat, buf: seq<byte>,
                   seen: seq<nat>, at: nat)
    requires Filled(tb, first, max, buf, seen) && at + RTA_HDRLEN <= |buf|
    requires tb' == if KindAt(buf, at) <= max then tb[KindAt(buf, at) := Some(at)] else tb
    ensures Filled(tb', first, max, buf, seen + [at])
  {
    hide KindAt;
    assert (seen + [at])[..|seen|] == seen;
  }

  lemma WalkOn(buf: seq<byte>, rta: nat, len: int, seen: seq<nat>, at: nat, left: int)
    requires (len > 0 ==> rta + len <= |buf|) && (left > 0 ==> at + left <= |buf|)
    requires Walk(buf, rta, len) == seen + Walk(buf, at, left)
    ensures RtaOk(buf, at, left) ==>
      var step := Align4(LenAt(buf, at));
      step > 0 && Walk(buf, rta, len) == seen + [at] + Walk(buf, at + step, left - step)
    ensures !RtaOk(buf, at, left) ==> Walk(buf, rta, len) == seen
  {
  }

  /** parse_rtattr: fills the table of attribute positions. Only the first max entries are cleared, so
      entry max keeps its old value unless an attribute of that type occurs. */
  method ParseRtattr(tb: array<Option<nat>>, max: nat, buf: seq<byte>, rta: nat, len: int)
    requires tb.Length == max + 1
    requires len > 0 ==> rta + len <= |buf|
    modifies tb
    ensures forall t :: 0 <= t < max ==> tb[t] == Find(buf, rta, len, t)
    ensures tb[max] == if Find(buf, rta, len, max).Some? then Find(buf, rta, len, max) else old(tb[max])
  {
    forall t | 0 <= t < max {
      tb[t] := None;
    }
    var at: nat, left := rta, len;
    ghost var seen: seq<nat> := [];
    WalkInside(buf, rta, len);
    assert Filled(tb[..], old(tb[max]), max, buf, seen);
    hide Filled, Walk, LenAt, KindAt, Align4;
    while RtaOk(buf, at, left)
      invariant left > 0 ==> at + left <= |buf|
      invariant Walk(buf, rta, len) == seen + Walk(buf, at, left)
      invariant Filled(tb[..], old(tb[max]), max, buf, seen)
      decreases if left > 0 then left else 0
    {
      ghost var before := tb[..];
      WalkOn(buf, rta, len, seen, at, left);
      if KindAt(buf, at) <= max {
        tb[KindAt(buf, at)] := Some(at);
      }
      FilledMore(before, tb[..], old(tb[max]), max, buf, seen, at);
      seen := seen + [at];
      var step := Align4(LenAt(buf, at));
      at, left := at + step, left - step;
    }
    WalkOn(buf, rta, len, seen, at, left);
    FilledMeans(tb[..], old(tb[max]), max, buf, rta, len);
  }

  lemma FilledMeans(tb: seq<Option<nat>>, first: Option<nat>, max: nat, buf: seq<byte>, rta: nat, len: int)
    requires (len > 0 ==> rta + len <= |buf|) && Filled(tb, first, max, buf, Walk(buf, rta, len))
    ensures |tb| == max + 1
    ensures forall t :: 0 <= t < max ==> tb[t] == Find(buf, rta, len, t)
    ensures tb[max] == if Find(buf, rta, len, max).Some? then Find(buf, rta, len, max) else first
  {
    hide Walk, Last;
  }
}
