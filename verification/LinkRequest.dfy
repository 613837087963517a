/** can_scoket2.c and can-setup.cc: the link-change request with its two nested attribute sections,
    and the three-level reading of such a message. */
module LinkRequest {
  import opened Options
  import opened Bytes
  import opened Attributes
  import opened NetlinkMessage

  const REQ_SIZE: nat := 1056          // nlmsghdr, ifinfomsg and the 1024-byte buffer
  const BODY: nat := 32                // where the attributes of a link message begin
  const NLM_F_REQUEST_ACK: nat := 5
  const RTM_NEWLINK: nat := 16
  const IF_UP: nat := 1
  const IF_DOWN: nat := 2
  const IFF_UP: nat := 1

  const IFLA_LINKINFO: nat := 18
  const IFLA_INFO_KIND: nat := 1
  const IFLA_INFO_DATA: nat := 2
  const IFLA_CAN_BITTIMING: nat := 1
  const IFLA_CAN_CTRLMODE: nat := 5
  const IFLA_CAN_RESTART_MS: nat := 6
  const IFLA_CAN_RESTART: nat := 7
  const IFLA_CAN_MAX: nat := 8

  const CAN: seq<byte> := [99, 97, 110]

  type u32 = x: nat | x < 0x1_0000_0000

  /** req_info: the two structures are given by their 32-bit fields, in order. */
  datatype ReqInfo = ReqInfo(restart: byte, disableAutorestart: byte, restartMs: u32,
                             ctrlmode: Option<seq<u32>>, bittiming: Option<seq<u32>>) {
    predicate Valid() {
      && (ctrlmode.Some? ==> |ctrlmode.value| == 2)
      && (bittiming.Some? ==> |bittiming.value| == 8)
    }
  }

  function Words(ws: seq<u32>): (r: seq<byte>)
    ensures |r| == 4 * |ws|
  {
    if ws == [] then [] else ToLE(ws[0], 4) + Words(ws[1..])
  }

  function ReadWords(s: seq<byte>): seq<nat> {
    if |s| < 4 then [] else [FromLE(s[..4])] + ReadWords(s[4..])
  }

  lemma {:induction false} WordsReadBack(ws: seq<u32>)
    ensures ReadWords(Words(ws)) == ws
  {
    if ws != [] {
      LoadStoredWidths(ws[0]);
      WordsReadBack(ws[1..]);
      assert Words(ws)[..4] == ToLE(ws[0], 4) && Words(ws)[4..] == Words(ws[1..]);
    }
  }

  /** The CAN attributes a request carries, each present or not. */
  function RestartMsAttr(info: ReqInfo): seq<Attr> {
    if info.restartMs > 0 || info.disableAutorestart != 0
    then [Attr(IFLA_CAN_RESTART_MS, ToLE(info.restartMs, 4))] else []
  }

  function RestartAttr(info: ReqInfo): seq<Attr> {
    if info.restart != 0 then [Attr(IFLA_CAN_RESTART, ToLE(1, 4))] else []
  }

  function BittimingAttr(info: ReqInfo): seq<Attr> {
    if info.bittiming.Some? then [Attr(IFLA_CAN_BITTIMING, Words(info.bittiming.value))] else []
  }

  function CtrlmodeAttr(info: ReqInfo): seq<Attr> {
    if info.ctrlmode.Some? then [Attr(IFLA_CAN_CTRLMODE, Words(info.ctrlmode.value))] else []
  }

  function CanAttrs(info: ReqInfo): seq<Attr> {
    RestartMsAttr(info) + RestartAttr(info) + BittimingAttr(info) + CtrlmodeAttr(info)
  }

  ghost predicate Blank(s: seq<byte>, from: nat) {
    forall i :: from <= i < |s| ==> s[i] == 0
  }

  /** A request under construction: what was appended so far, and zeros behind it. */
  ghost predicate Building(s: seq<byte>, attrs: seq<Attr>) {
    |s| == REQ_SIZE && Appended(s, BODY, attrs) && Blank(s, BODY + Size(attrs))
  }

  /** A finished request: a link-info section around a kind and a data section around the attributes. */
  ghost predicate IsRequest(s: seq<byte>, can: seq<Attr>) {
    && |s| >= BODY + 16 && LenField(s) == BODY + 16 + Size(can) && LenField(s) + 8 <= |s|
    && Encodes(s, BODY, [Attr(IFLA_LINKINFO, s[BODY + 4..LenField(s)])])
    && Encodes(s, BODY + 4, [Attr(IFLA_INFO_KIND, CAN), Attr(IFLA_INFO_DATA, s[BODY + 16..LenField(s)])])
    && Encodes(s, BODY + 16, can)
    && Blank(s, LenField(s))
  }

  /** One append to a request under construction. */
  lemma Pushed(s: seq<byte>, s': seq<byte>, attrs: seq<Attr>, a: Attr)
    requires Building(s, attrs) && a.Fits() && IsAppend(s, s', a.kind, a.payload)
    ensures Building(s', attrs + [a]) && s'[4..BODY] == s[4..BODY]
  {
    AppendExtends(s, s', BODY, attrs, a);
    SizeAligned(attrs);
    var at := BODY + Size(attrs);
    forall i | at + a.Footprint() <= i < |s'|
      ensures s'[i] == 0
    {
      assert s'[i] == s'[at + a.Len()..][i - at - a.Len()] == s[at + a.Len()..][i - at - a.Len()];
    }
  }

  lemma BuildingTail(s: seq<byte>, attrs: seq<Attr>)
    requires Building(s, attrs)
    ensures |s| == REQ_SIZE && Sound(s) && Tail(s) == BODY + Size(attrs)
  {
    hide Encodes;
    SizeAligned(attrs);
  }

  /** The two stores that close the sections: the link-info length and the data length. */
  function Closed(s: seq<byte>, tail: nat): (r: seq<byte>)
    requires |s| == REQ_SIZE && BODY + 16 <= tail
    ensures |r| == |s|
  {
    Patch(Patch(s, BODY + 12, ToLE((tail - (BODY + 12)) % U16, 2)), BODY, ToLE((tail - BODY) % U16, 2))
  }

  const OPENING: seq<Attr> := [Attr(IFLA_LINKINFO, []), Attr(IFLA_INFO_KIND, CAN), Attr(IFLA_INFO_DATA, [])]

  /** Before the lengths are patched the sections are empty attributes in a flat list. */
  lemma OpenSections(s: seq<byte>, can: seq<Attr>)
    requires Building(s, OPENING + can)
    ensures Size(OPENING + can) == 16 + Size(can)
    ensures Holds(s, BODY, OPENING[0]) && Holds(s, BODY + 4, OPENING[1]) && Holds(s, BODY + 12, OPENING[2])
    ensures Encodes(s, BODY + 16, can)
  {
    var all := OPENING + can;
    assert all[1..][0] == OPENING[1] && all[2..][0] == OPENING[2];
    assert all[1..][1..] == all[2..] && all[2..][1..] == all[3..] == can;
    assert Size(all) == 4 + Size(all[1..]);
    assert Size(all[1..]) == 8 + Size(all[2..]);
    assert Size(all[2..]) == 4 + Size(all[3..]);
    assert Encodes(s, BODY + 4, all[1..]);
    assert Encodes(s, BODY + 12, all[2..]);
    assert Encodes(s, BODY + 16, all[3..]);
  }

  /** Closing the sections touches the two length fields only. */
  lemma ClosedBytes(s: seq<byte>, tail: nat)
    requires |s| == REQ_SIZE && BODY + 16 <= tail <= |s|
    ensures var r := Closed(s, tail);
      && r[0..BODY] == s[0..BODY]
      && r[BODY..BODY + 2] == ToLE(tail - BODY, 2)
      && r[BODY + 2..BODY + 12] == s[BODY + 2..BODY + 12]
      && r[BODY + 12..BODY + 12 + 2] == ToLE(tail - (BODY + 12), 2)
      && r[BODY + 14..] == s[BODY + 14..]
  {
    hide Patch, ToLE;
    var d, l := ToLE(tail - (BODY + 12), 2), ToLE(tail - BODY, 2);
    var t := Patch(s, BODY + 12, d);
    PatchInside(s, BODY + 12, d);
    PatchOutside(s, BODY + 12, d, 0, BODY);
    PatchOutside(s, BODY + 12, d, BODY + 2, BODY + 12);
    PatchOutside(s, BODY + 12, d, BODY + 14, |s|);
    PatchInside(t, BODY, l);
    PatchOutside(t, BODY, l, 0, BODY);
    PatchOutside(t, BODY, l, BODY + 2, BODY + 12);
    PatchOutside(t, BODY, l, BODY + 12, BODY + 12 + 2);
    PatchOutside(t, BODY, l, BODY + 14, |s|);
  }

  /** Closing the sections turns the flat list into the nested one. */
  lemma ClosingNests(s: seq<byte>, can: seq<Attr>)
    requires Building(s, OPENING + can) && BODY + 16 + Size(can) + 8 <= REQ_SIZE
    ensures IsRequest(Closed(s, BODY + 16 + Size(can)), can)
    ensures Closed(s, BODY + 16 + Size(can))[4..BODY] == s[4..BODY]
  {
    hide Encodes, Holds, ToLE, Size, Closed, Blank;
    OpenSections(s, can);
    var tail := BODY + 16 + Size(can);
    ClosedBytes(s, tail);
    var r := Closed(s, tail);
    EqualParts(s, r, 0, BODY, 0, 4);
    assert LenField(r) == Read32(r, 0) == Read32(s, 0) == LenField(s) == tail;
    EqualParts(s, r, 0, BODY, 4, BODY);
    NestedLayout(s, r, can, tail);
    ClosedBlank(s, r, tail);
  }

  lemma ClosedBlank(s: seq<byte>, r: seq<byte>, tail: nat)
    requires BODY + 14 <= tail && |r| == |s| >= BODY + 14 && Blank(s, tail) && r[BODY + 14..] == s[BODY + 14..]
    ensures Blank(r, tail)
  {
    forall i | tail <= i < |r|
      ensures r[i] == 0
    {
      assert r[i] == r[BODY + 14..][i - BODY - 14] == s[BODY + 14..][i - BODY - 14];
    }
  }

  /** A header whose length was patched to reach `tail` holds everything up to there. */
  lemma SectionHolds(r: seq<byte>, o: nat, kind: nat, tail: nat)
    requires o + RTA_HDRLEN <= tail <= |r| < U16 && (tail - o) % 4 == 0
    requires r[o..o + 2] == ToLE(tail - o, 2) && KindAt(r, o) == kind
    ensures Holds(r, o, Attr(kind, r[o + RTA_HDRLEN..tail]))
    ensures Attr(kind, r[o + RTA_HDRLEN..tail]).Footprint() == tail - o
  {
    LoadStoredWidths(tail - o);
  }

  lemma NestedLayout(s: seq<byte>, r: seq<byte>, can: seq<Attr>, tail: nat)
    requires |s| == |r| == REQ_SIZE && tail == BODY + 16 + Size(can) <= REQ_SIZE
    requires Holds(s, BODY, OPENING[0]) && Holds(s, BODY + 4, OPENING[1]) && Holds(s, BODY + 12, OPENING[2])
    requires Encodes(s, BODY + 16, can)
    requires r[BODY..BODY + 2] == ToLE(tail - BODY, 2)
    requires r[BODY + 2..BODY + 12] == s[BODY + 2..BODY + 12]
    requires r[BODY + 12..BODY + 12 + 2] == ToLE(tail - (BODY + 12), 2)
    requires r[BODY + 14..] == s[BODY + 14..]
    ensures Encodes(r, BODY, [Attr(IFLA_LINKINFO, r[BODY + 4..tail])])
    ensures Encodes(r, BODY + 4, [Attr(IFLA_INFO_KIND, CAN), Attr(IFLA_INFO_DATA, r[BODY + 16..tail])])
    ensures Encodes(r, BODY + 16, can)
  {
    hide Encodes, ToLE, Size;
    SizeAligned(can);
    EqualParts(s, r, BODY + 2, BODY + 12, BODY + 2, BODY + 2 + 2);
    SectionHolds(r, BODY, IFLA_LINKINFO, tail);
    EncodesOne(r, BODY, Attr(IFLA_LINKINFO, r[BODY + 4..tail]));
    EqualParts(s, r, BODY + 14, |s|, BODY + 12 + 2, BODY + 12 + 2 + 2);
    SectionHolds(r, BODY + 12, IFLA_INFO_DATA, tail);
    EqualParts(s, r, BODY + 2, BODY + 12, BODY + 4, BODY + 12);
    HoldsElsewhere(s, r, BODY + 4, OPENING[1]);
    EncodesTwo(r, BODY + 4, OPENING[1], Attr(IFLA_INFO_DATA, r[BODY + 16..tail]));
    EqualParts(s, r, BODY + 14, |s|, BODY + 16, tail);
    EncodesElsewhere(s, r, BODY + 16, can);
  }

  lemma EncodesTwo(s: seq<byte>, o: nat, a: Attr, b: Attr)
    requires Holds(s, o, a) && Holds(s, o + a.Footprint(), b)
    ensures Encodes(s, o, [a, b])
  {
    EncodesOne(s, o + a.Footprint(), b);
    assert [a, b][1..] == [b];
  }

  lemma EncodesOne(s: seq<byte>, o: nat, a: Attr)
    requires Holds(s, o, a)
    ensures Encodes(s, o, [a])
  {
  }
}
