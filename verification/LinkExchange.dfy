/** can_scoket2.c and can-setup.cc: building the link-change request, reading link attributes back, and
    the round trip between the two. */
module LinkExchange {
  import opened Options
  import opened Bytes
  import opened Attributes
  import opened NetlinkMessage
  import opened LinkRequest

  /** nlmsghdr behind its length field: type, flags, sequence number and port. */
  function NlFields(): (r: seq<byte>)
    ensures |r| == 12
  {
    ToLE(RTM_NEWLINK, 2) + ToLE(NLM_F_REQUEST_ACK, 2) + ToLE(0, 4) + ToLE(0, 4)
  }

  /** ifinfomsg up to the interface index, and its flags and change mask. */
  function IfiFields(ifIndex: u32): (r: seq<byte>)
    ensures |r| == 8
  {
    ToLE(0, 4) + ToLE(ifIndex, 4)
  }

  function UpFields(ifState: byte): (r: seq<byte>)
    ensures |r| == 8
  {
    ToLE(if ifState == IF_UP then IFF_UP else 0, 4) + ToLE(if ifState == 0 then 0 else IFF_UP, 4)
  }

  /** The headers of the request, behind the length field. */
  function LinkHeader(ifIndex: u32, ifState: byte): (r: seq<byte>)
    ensures |r| == BODY - 4
  {
    NlFields() + IfiFields(ifIndex) + UpFields(ifState)
  }

  /** The fields of the request as the receiver of the message reads them: a new-link message that asks for an
      acknowledgement, the interface index, and the up flag. The flag is set only to bring the interface up;
      it is among the flags to change whenever a state was asked for. */
  lemma HeaderReads(s: seq<byte>, ifIndex: u32, ifState: byte)
    requires |s| >= BODY && s[4..BODY] == LinkHeader(ifIndex, ifState) && ifState <= 2
    ensures Read16(s, 4) == 16 && Read16(s, 6) == 5
    ensures Read32(s, 8) == 0 && Read32(s, 12) == 0 && Read32(s, 16) == 0
    ensures Read32(s, 20) == ifIndex
    ensures Read32(s, 24) == if ifState == 1 then 1 else 0
    ensures Read32(s, 28) == if ifState == 1 || ifState == 2 then 1 else 0
  {
    hide ToLE, FromLE;
    var h := LinkHeader(ifIndex, ifState);
    assert h[0..12] == NlFields() && h[12..20] == IfiFields(ifIndex) && h[20..28] == UpFields(ifState);
    NlReads(NlFields());
    PartOf(s, 4, h, 0, 12);
    PartOf(s, 4, h, 12, 20);
    PartOf(s, 4, h, 20, 28);
    assert IfiFields(ifIndex)[0..4] == ToLE(0, 4) && IfiFields(ifIndex)[4..8] == ToLE(ifIndex, 4);
    var flags, change := if ifState == 1 then 1 else 0, if ifState == 0 then 0 else 1;
    assert UpFields(ifState)[0..4] == ToLE(flags, 4) && UpFields(ifState)[4..8] == ToLE(change, 4);
    LoadStoredWidths(0);
    LoadStoredWidths(1);
    LoadStoredWidths(ifIndex);
    PartOf(s, 4, NlFields(), 0, 2);
    PartOf(s, 4, NlFields(), 2, 4);
    PartOf(s, 4, NlFields(), 4, 8);
    PartOf(s, 4, NlFields(), 8, 12);
    PartOf(s, 16, IfiFields(ifIndex), 0, 4);
    PartOf(s, 16, IfiFields(ifIndex), 4, 8);
    PartOf(s, 24, UpFields(ifState), 0, 4);
    PartOf(s, 24, UpFields(ifState), 4, 8);
  }

  lemma NlReads(d: seq<byte>)
    requires d == NlFields()
    ensures FromLE(d[0..2]) == 16 && FromLE(d[2..4]) == 5 && FromLE(d[4..8]) == 0 && FromLE(d[8..12]) == 0
  {
    hide ToLE, FromLE;
    assert d[0..2] == ToLE(RTM_NEWLINK, 2) && d[2..4] == ToLE(NLM_F_REQUEST_ACK, 2);
    assert d[4..8] == ToLE(0, 4) && d[8..12] == d[8..] == ToLE(0, 4);
    LoadStoredWidths(RTM_NEWLINK);
    LoadStoredWidths(NLM_F_REQUEST_ACK);
    LoadStoredWidths(0);
  }

  /** addattr_l on a request under construction, where it always finds room. */
  method Push(req: array<byte>, maxlen: nat, ghost done: seq<Attr>, ghost more: seq<Attr>, kind: nat, data: seq<byte>)
    returns (ghost now: seq<Attr>)
    requires Building(req[..], done + more) && Attr(kind, data).Fits()
    requires BODY + Size(done + more) + Attr(kind, data).Footprint() <= maxlen <= REQ_SIZE
    modifies req
    ensures now == more + [Attr(kind, data)]
    ensures Size(done + now) == Size(done + more) + Attr(kind, data).Footprint()
    ensures Building(req[..], done + now) && req[4..BODY] == old(req[..])[4..BODY]
  {
    hide Building, Sound, Tail, Encodes, Size, IsAppend;
    now := more + [Attr(kind, data)];
    assert done + now == (done + more) + [Attr(kind, data)];
    SizeAligned(done + more);
    SizeSnoc(done + more, Attr(kind, data));
    BuildingTail(req[..], done + more);
    var r := AddAttrL(req, maxlen, kind, data);
    Pushed(old(req[..]), req[..], done + more, Attr(kind, data));
  }

  /** addattr32 likewise. */
  method Push32(req: array<byte>, maxlen: nat, ghost done: seq<Attr>, ghost more: seq<Attr>, kind: nat, data: u32)
    returns (ghost now: seq<Attr>)
    requires Building(req[..], done + more) && kind < U16
    requires BODY + Size(done + more) + 8 <= maxlen <= REQ_SIZE
    modifies req
    ensures now == more + [Attr(kind, ToLE(data, 4))]
    ensures Size(done + now) == Size(done + more) + 8
    ensures Building(req[..], done + now) && req[4..BODY] == old(req[..])[4..BODY]
  {
    hide Building, Sound, Tail, Encodes, Size, IsAppend, ToLE;
    now := more + [Attr(kind, ToLE(data, 4))];
    assert done + now == (done + more) + [Attr(kind, ToLE(data, 4))];
    SizeAligned(done + more);
    SizeSnoc(done + more, Attr(kind, ToLE(data, 4)));
    BuildingTail(req[..], done + more);
    var r := AddAttr32(req, maxlen, kind, data);
    Pushed(old(req[..]), req[..], done + more, Attr(kind, ToLE(data, 4)));
  }

  /** The section openers; the positions of the two headers to be patched later are returned. */
  method OpenLinkInfo(req: array<byte>) returns (linkinfo: nat, data: nat)
    requires Building(req[..], [])
    modifies req
    ensures linkinfo == BODY && data == BODY + 12
    ensures Building(req[..], OPENING) && req[4..BODY] == old(req[..])[4..BODY]
  {
    hide Building, ToLE, Tail;
    ghost var none: seq<Attr> := [];
    assert none + none == none && Size(none) == 0;
    hide Size;
    BuildingTail(req[..], none);
    linkinfo := Tail(req[..]);
    ghost var more := Push(req, REQ_SIZE, none, none, IFLA_LINKINFO, []);
    more := Push(req, REQ_SIZE, none, more, IFLA_INFO_KIND, CAN);
    BuildingTail(req[..], none + more);
    data := Tail(req[..]);
    more := Push(req, REQ_SIZE, none, more, IFLA_INFO_DATA, []);
    assert none + more == OPENING;
  }

  /** The restart attributes, each optional. */
  method AddRestartAttrs(req: array<byte>, info: ReqInfo) returns (ghost more: seq<Attr>)
    requires Building(req[..], OPENING)
    modifies req
    ensures more == RestartMsAttr(info) + RestartAttr(info)
    ensures Building(req[..], OPENING + more) && Size(OPENING + more) <= 32
    ensures req[4..BODY] == old(req[..])[4..BODY]
  {
    hide Building, ToLE;
    more := [];
    assert OPENING + more == OPENING;
    OpenSections(req[..], more);
    assert Size(more) == 0;
    hide Size;
    if info.restartMs > 0 || info.disableAutorestart != 0 {
      more := Push32(req, 1024, OPENING, more, IFLA_CAN_RESTART_MS, info.restartMs);
    }
    if info.restart != 0 {
      more := Push32(req, 1024, OPENING, more, IFLA_CAN_RESTART, 1);
    }
  }

  /** The CAN attributes of a request, each optional. */
  method AddCanAttrs(req: array<byte>, info: ReqInfo)
    requires Building(req[..], OPENING) && info.Valid()
    modifies req
    ensures Building(req[..], OPENING + CanAttrs(info)) && Size(OPENING + CanAttrs(info)) <= 80
    ensures req[4..BODY] == old(req[..])[4..BODY]
  {
    hide Building, Words, Size;
    ghost var more := AddRestartAttrs(req, info);
    if info.bittiming.Some? {
      more := Push(req, 1024, OPENING, more, IFLA_CAN_BITTIMING, Words(info.bittiming.value));
    }
    if info.ctrlmode.Some? {
      more := Push(req, 1024, OPENING, more, IFLA_CAN_CTRLMODE, Words(info.ctrlmode.value));
    }
    assert more == CanAttrs(info);
  }

  /** Marks the ends of the data and link-info sections by patching their lengths. */
  method CloseLinkInfo(req: array<byte>, linkinfo: nat, data: nat, ghost can: seq<Attr>)
    requires Building(req[..], OPENING + can) && Size(OPENING + can) <= 80
    requires linkinfo == BODY && data == BODY + 12
    modifies req
    ensures IsRequest(req[..], can) && req[4..BODY] == old(req[..])[4..BODY]
  {
    hide Encodes, Size, ToLE;
    OpenSections(req[..], can);
    SizeAligned(can);
    var tail := Tail(req[..]);
    assert tail == BODY + 16 + Size(can);
    Store(req, data, ToLE((tail - data) % U16, 2));
    Store(req, linkinfo, ToLE((tail - linkinfo) % U16, 2));
    assert req[..] == Closed(old(req[..]), tail);
    ClosingNests(old(req[..]), can);
  }

  /** The link-info section of a request: openers, the CAN attributes, and the two lengths patched once
      the end is known. */
  method AddLinkInfo(req: array<byte>, info: ReqInfo)
    requires Building(req[..], []) && info.Valid()
    modifies req
    ensures IsRequest(req[..], CanAttrs(info))
    ensures req[4..BODY] == old(req[..])[4..BODY]
  {
    var linkinfo, data := OpenLinkInfo(req);
    AddCanAttrs(req, info);
    CloseLinkInfo(req, linkinfo, data, CanAttrs(info));
  }

  /** h has been laid down from the start of the zeroed request. */
  ghost predicate Laid(s: seq<byte>, h: seq<byte>) {
    |h| <= |s| && s[..|h|] == h && Blank(s, |h|)
  }

  lemma NothingLaid(s: seq<byte>)
    requires Blank(s, 0)
    ensures Laid(s, [])
  {
  }

  /** Stores the next field of the header. */
  method Lay(req: array<byte>, ghost h: seq<byte>, at: nat, d: seq<byte>)
    requires Laid(req[..], h) && at == |h| && at + |d| <= req.Length
    modifies req
    ensures Laid(req[..], h + d)
  {
    Store(req, at, d);
  }

  /** The fixed headers, stored field by field into the zeroed request. */
  method StartRequest(req: array<byte>, ifIndex: u32, ifState: byte)
    requires req.Length == REQ_SIZE && Blank(req[..], 0)
    modifies req
    ensures Building(req[..], []) && req[4..BODY] == LinkHeader(ifIndex, ifState)
  {
    hide ToLE, Laid, Building, Blank, NlFields, IfiFields, UpFields;
    NothingLaid(req[..]);
    var len := ToLE(BODY, 4);
    Lay(req, [], 0, len);
    assert [] + len == len;
    Lay(req, len, 4, NlFields());
    Lay(req, len + NlFields(), 16, IfiFields(ifIndex));
    Lay(req, len + NlFields() + IfiFields(ifIndex), 24, UpFields(ifState));
    assert len + NlFields() + IfiFields(ifIndex) + UpFields(ifState) == len + LinkHeader(ifIndex, ifState);
    HeaderLaid(req[..], LinkHeader(ifIndex, ifState));
  }

  lemma HeaderLaid(s: seq<byte>, header: seq<byte>)
    requires |s| == REQ_SIZE && |header| == BODY - 4 && Laid(s, ToLE(BODY, 4) + header)
    ensures Building(s, []) && s[4..BODY] == header
  {
    var h := ToLE(BODY, 4) + header;
    LoadStoredWidths(BODY);
    PartOf(s, 0, h, 0, 4);
    PartOf(s, 0, h, 4, BODY);
    assert h[0..4] == ToLE(BODY, 4) && h[4..BODY] == header;
  }

  /** The build part of do_set_nl_link: -1 for an unknown interface or state, else the request to send. */
  method DoSetNlLink(ifIndex: u32, ifState: byte, info: Option<ReqInfo>) returns (r: int, req: array<byte>)
    requires info.Some? ==> info.value.Valid()
    ensures fresh(req) && req.Length == REQ_SIZE
    ensures r == if ifIndex == 0 || ifState > IF_DOWN then -1 else 0
    ensures r == 0 ==> req[4..BODY] == LinkHeader(ifIndex, ifState)
    ensures r == 0 ==>
      && Read16(req[..], 4) == 16 && Read16(req[..], 6) == 5
      && Read32(req[..], 8) == 0 && Read32(req[..], 12) == 0 && Read32(req[..], 16) == 0
      && Read32(req[..], 20) == ifIndex
      && Read32(req[..], 24) == (if ifState == 1 then 1 else 0)
      && Read32(req[..], 28) == (if ifState == 1 || ifState == 2 then 1 else 0)
    ensures r == 0 && info.None? ==> Building(req[..], [])
    ensures r == 0 && info.Some? ==> IsRequest(req[..], CanAttrs(info.value))
  {
    req := new byte[REQ_SIZE](_ => 0);
    if ifIndex == 0 {
      return -1, req;
    }
    if ifState != 0 && ifState != IF_DOWN && ifState != IF_UP {
      return -1, req;
    }
    StartRequest(req, ifIndex, ifState);
    if info.Some? {
      AddLinkInfo(req, info.value);
    }
    HeaderReads(req[..], ifIndex, ifState);
    r := 0;
  }

  // ---------------------------------------------------------------- reading a link message

  /** How far the three-level reading gets. */
  datatype LinkView = NoLinkInfo | NoData | Data(at: nat)

  /** The message and the eight bytes of slack behind it, which the outer length includes. */
  ghost predicate Readable(s: seq<byte>) {
    |s| >= BODY && LenField(s) + 8 <= |s|
  }

  function View(s: seq<byte>): (r: LinkView)
    requires Readable(s)
    ensures r.Data? ==> r.at + RTA_HDRLEN <= |s| && RTA_HDRLEN <= LenAt(s, r.at) && r.at + LenAt(s, r.at) <= |s|
  {
    match Find(s, BODY, LenField(s) - 24, IFLA_LINKINFO)
    case None => NoLinkInfo
    case Some(l) =>
      match Find(s, l + RTA_HDRLEN, LenAt(s, l) - RTA_HDRLEN, IFLA_INFO_DATA)
      case None => NoData
      case Some(d) => Data(d)
  }

  /** The words of the CAN attribute of type t inside the data section at position d. */
  function CanWords(s: seq<byte>, d: nat, t: nat): Option<seq<nat>>
    requires d + RTA_HDRLEN <= |s| && RTA_HDRLEN <= LenAt(s, d) && d + LenAt(s, d) <= |s|
  {
    match Find(s, d + RTA_HDRLEN, LenAt(s, d) - RTA_HDRLEN, t)
    case None => None
    case Some(a) => Some(ReadWords(PayloadAt(s, a)))
  }

  /** parse_rtattr_nested: the payload of the attribute at position a is parsed. */
  method ParseNested(tb: array<Option<nat>>, max: nat, buf: seq<byte>, a: nat)
    requires tb.Length == max + 1
    requires a + RTA_HDRLEN <= |buf| && RTA_HDRLEN <= LenAt(buf, a) && a + LenAt(buf, a) <= |buf|
    modifies tb
    ensures forall t :: 0 <= t < max ==> tb[t] == Find(buf, a + RTA_HDRLEN, LenAt(buf, a) - RTA_HDRLEN, t)
  {
    ParseRtattr(tb, max, buf, a + RTA_HDRLEN, LenAt(buf, a) - RTA_HDRLEN);
  }

  /** The nested parse of do_get_nl_link. The tables start out with arbitrary contents. */
  method ReadLink(buf: seq<byte>, iflaMax: nat, infoMax: nat) returns (view: LinkView, canAttr: array<Option<nat>>)
    requires Readable(buf) && iflaMax > IFLA_LINKINFO && infoMax > IFLA_INFO_DATA
    ensures view == View(buf) && canAttr.Length == IFLA_CAN_MAX + 1
    ensures view.Data? ==> forall t :: 0 <= t < IFLA_CAN_MAX ==>
      canAttr[t] == Find(buf, view.at + RTA_HDRLEN, LenAt(buf, view.at) - RTA_HDRLEN, t)
  {
    hide Find, LenField, LenAt;
    var tb, linkinfo := new Option<nat>[iflaMax + 1], new Option<nat>[infoMax + 1];
    canAttr := new Option<nat>[IFLA_CAN_MAX + 1];
    ParseRtattr(tb, iflaMax, buf, BODY, LenField(buf) - 24);
    if tb[IFLA_LINKINFO].None? {
      return NoLinkInfo, canAttr;
    }
    var l := tb[IFLA_LINKINFO].value;
    ParseNested(linkinfo, infoMax, buf, l);
    if linkinfo[IFLA_INFO_DATA].None? {
      return NoData, canAttr;
    }
    var d := linkinfo[IFLA_INFO_DATA].value;
    ParseNested(canAttr, IFLA_CAN_MAX, buf, d);
    view := Data(d);
  }

  // ---------------------------------------------------------------- round trip

  lemma ZeroIsNoAttribute(s: seq<byte>, o: nat, len: int)
    requires Blank(s, o) && (len > 0 ==> o + len <= |s|)
    ensures !RtaOk(s, o, len)
  {
    if len >= RTA_HDRLEN {
      assert s[o..o + 2] == [0, 0];
      assert FromLE([0, 0]) == 0;
    }
  }

  lemma FindsLast(s: seq<byte>, o: nat, attrs: seq<Attr>, len: int, n: nat)
    requires Encodes(s, o, attrs) && Size(attrs) <= len && o + len <= |s|
    requires !RtaOk(s, o + Size(attrs), len - Size(attrs))
    requires |attrs| == n + 1
    ensures Find(s, o, len, attrs[n].kind) == Some(Places(o, attrs)[n])
  {
    WalkEncoded(s, o, attrs, len);
    PlacesHold(s, o, attrs, n);
    hide Walk, Places, Encodes, Size, Read16;
  }

  /** A request without settings reads as one without a link-info section. */
  lemma PlainRequestView(s: seq<byte>)
    requires Building(s, [])
    ensures Readable(s) && View(s) == NoLinkInfo
  {
    ZeroIsNoAttribute(s, BODY, 8);
    assert Walk(s, BODY, 8) == [];
  }

  /** Until the two lengths are patched the data section is not found, whatever has been appended behind its
      header: the outer section is still empty. */
  lemma UnpatchedView(s: seq<byte>, info: ReqInfo)
    requires Building(s, OPENING + CanAttrs(info)) && Size(OPENING + CanAttrs(info)) <= 80
    ensures Readable(s) && View(s) == NoData
  {
    hide Encodes, Find, LastPayload, Walk, Read16;
    var attrs := OPENING + CanAttrs(info);
    assert LenField(s) == BODY + Size(attrs);
    ZeroIsNoAttribute(s, LenField(s), 8);
    FlatRoundTrip(s, BODY, attrs, Size(attrs) + 8, IFLA_LINKINFO);
    OuterIsEmpty(info);
    var l := Find(s, BODY, Size(attrs) + 8, IFLA_LINKINFO).value;
    assert |PayloadAt(s, l)| == 0;
    EmptyRegion(s, l + RTA_HDRLEN, IFLA_INFO_DATA);
  }

  lemma EmptyRegion(s: seq<byte>, o: nat, t: nat)
    ensures Find(s, o, 0, t) == None
  {
  }

  lemma OuterIsEmpty(info: ReqInfo)
    ensures LastPayload(OPENING + CanAttrs(info), IFLA_LINKINFO) == Some([])
  {
    LastPayloadConcat(OPENING, CanAttrs(info), IFLA_LINKINFO);
    CanPayload(info, IFLA_LINKINFO);
    assert LastPayload(CanAttrs(info), IFLA_LINKINFO) == None;
    var a, b, c := OPENING[0], OPENING[1], OPENING[2];
    assert OPENING == [a, b] + [c] && [a, b] == [a] + [b];
    LastPayloadConcat([a, b], [c], IFLA_LINKINFO);
    LastPayloadConcat([a], [b], IFLA_LINKINFO);
  }

  lemma SizeOfTwo(a: Attr, b: Attr)
    ensures Size([a]) == a.Footprint() && Size([a, b]) == a.Footprint() + b.Footprint()
    ensures Places(0, [a]) == [0]
  {
    assert [a, b][1..] == [b] && [b][1..] == [] && [a][1..] == [];
  }

  /** The outer level: the link-info section, which reaches to the end of the message. */
  lemma LinkInfoFound(s: seq<byte>, can: seq<Attr>)
    requires IsRequest(s, can)
    ensures Readable(s) && LenAt(s, BODY) == LenField(s) - BODY
    ensures Find(s, BODY, LenField(s) - 24, IFLA_LINKINFO) == Some(BODY)
  {
    var tail := LenField(s);
    var linkinfo := Attr(IFLA_LINKINFO, s[BODY + 4..tail]);
    SizeAligned(can);
    SizeOfTwo(linkinfo, linkinfo);
    ZeroIsNoAttribute(s, tail, 8);
    FindsLast(s, BODY, [linkinfo], tail - 24, 0);
  }

  lemma SecondPlace(o: nat, a: Attr, b: Attr)
    ensures Places(o, [a, b])[1] == o + a.Footprint()
  {
    assert [a, b][1..] == [b];
  }

  /** The middle level: the data section, which reaches to the end of the message as well. */
  lemma DataFound(s: seq<byte>, can: seq<Attr>)
    requires IsRequest(s, can)
    ensures LenAt(s, BODY + 12) == RTA_HDRLEN + Size(can)
    ensures Find(s, BODY + 4, LenField(s) - (BODY + 4), IFLA_INFO_DATA) == Some(BODY + 12)
  {
    var tail := LenField(s);
    var kind, data := Attr(IFLA_INFO_KIND, CAN), Attr(IFLA_INFO_DATA, s[BODY + 16..tail]);
    hide Find, Read16, Encodes, Size, Places, Blank;
    SizeAligned(can);
    SizeOfTwo(kind, data);
    SecondPlace(BODY + 4, kind, data);
    FindsLast(s, BODY + 4, [kind, data], tail - (BODY + 4), 1);
    PlacesHold(s, BODY + 4, [kind, data], 1);
  }

  /** The data section of a request is found through both outer levels. */
  lemma RequestView(s: seq<byte>, can: seq<Attr>)
    requires IsRequest(s, can)
    ensures Readable(s) && View(s) == Data(BODY + 12)
    ensures LenAt(s, BODY + 12) == RTA_HDRLEN + Size(can)
  {
    hide Find, IsRequest, Size;
    LinkInfoFound(s, can);
    DataFound(s, can);
  }

  lemma FirstOfTwo(a: Attr, b: Attr)
    requires a.kind != b.kind
    ensures LastPayload([a, b], a.kind) == Some(a.payload)
  {
    assert [a, b][..1] == [a];
  }

  /** The kind attribute of a request reads "can". */
  lemma RequestKind(s: seq<byte>, can: seq<Attr>)
    requires IsRequest(s, can)
    ensures match Find(s, BODY + 4, LenField(s) - (BODY + 4), IFLA_INFO_KIND)
      case None => false
      case Some(a) => PayloadAt(s, a) == CAN
  {
    var tail := LenField(s);
    var kind, data := Attr(IFLA_INFO_KIND, CAN), Attr(IFLA_INFO_DATA, s[BODY + 16..tail]);
    hide Encodes, Find, LastPayload, Size, Read16, Blank;
    SizeAligned(can);
    SizeOfTwo(kind, data);
    FirstOfTwo(kind, data);
    FlatRoundTrip(s, BODY + 4, [kind, data], tail - (BODY + 4), IFLA_INFO_KIND);
  }

  /** Reading the request back gives, at the third level, the last CAN attribute of each type. */
  lemma RequestCanWords(s: seq<byte>, can: seq<Attr>, t: nat)
    requires IsRequest(s, can)
    ensures LenAt(s, BODY + 12) == RTA_HDRLEN + Size(can)
    ensures CanWords(s, BODY + 12, t) ==
      match LastPayload(can, t) { case None => None case Some(p) => Some(ReadWords(p)) }
  {
    hide Encodes, Find, LastPayload, Size, View, Blank, ReadWords, Read16;
    RequestView(s, can);
    FlatRoundTrip(s, BODY + 16, can, Size(can), t);
  }

  /** Nested round trip: a request built for `info` reads back as exactly the settings that were given,
      and nothing for those that were not. */
  lemma NestedRoundTrip(s: seq<byte>, info: ReqInfo)
    requires info.Valid() && IsRequest(s, CanAttrs(info))
    ensures Readable(s) && View(s).Data?
    ensures var d := View(s).at;
      && CanWords(s, d, IFLA_CAN_RESTART_MS) ==
         (if info.restartMs > 0 || info.disableAutorestart != 0 then Some([info.restartMs]) else None)
      && CanWords(s, d, IFLA_CAN_RESTART) == (if info.restart != 0 then Some([1]) else None)
      && CanWords(s, d, IFLA_CAN_BITTIMING) == info.bittiming
      && CanWords(s, d, IFLA_CAN_CTRLMODE) == info.ctrlmode
  {
    RequestView(s, CanAttrs(info));
    RestartMsReadsBack(s, info);
    RestartReadsBack(s, info);
    BittimingReadsBack(s, info);
    CtrlmodeReadsBack(s, info);
  }

  lemma RestartMsReadsBack(s: seq<byte>, info: ReqInfo)
    requires IsRequest(s, CanAttrs(info))
    ensures LenAt(s, BODY + 12) == RTA_HDRLEN + Size(CanAttrs(info))
    ensures CanWords(s, BODY + 12, IFLA_CAN_RESTART_MS) ==
      if info.restartMs > 0 || info.disableAutorestart != 0 then Some([info.restartMs]) else None
  {
    RequestCanWords(s, CanAttrs(info), IFLA_CAN_RESTART_MS);
    CanPayload(info, IFLA_CAN_RESTART_MS);
    OneWord(info.restartMs);
  }

  lemma RestartReadsBack(s: seq<byte>, info: ReqInfo)
    requires IsRequest(s, CanAttrs(info))
    ensures LenAt(s, BODY + 12) == RTA_HDRLEN + Size(CanAttrs(info))
    ensures CanWords(s, BODY + 12, IFLA_CAN_RESTART) == if info.restart != 0 then Some([1]) else None
  {
    RequestCanWords(s, CanAttrs(info), IFLA_CAN_RESTART);
    CanPayload(info, IFLA_CAN_RESTART);
    OneWord(1);
  }

  lemma BittimingReadsBack(s: seq<byte>, info: ReqInfo)
    requires IsRequest(s, CanAttrs(info))
    ensures LenAt(s, BODY + 12) == RTA_HDRLEN + Size(CanAttrs(info))
    ensures CanWords(s, BODY + 12, IFLA_CAN_BITTIMING) == info.bittiming
  {
    RequestCanWords(s, CanAttrs(info), IFLA_CAN_BITTIMING);
    CanPayload(info, IFLA_CAN_BITTIMING);
    if info.bittiming.Some? { WordsReadBack(info.bittiming.value); }
  }

  lemma CtrlmodeReadsBack(s: seq<byte>, info: ReqInfo)
    requires IsRequest(s, CanAttrs(info))
    ensures LenAt(s, BODY + 12) == RTA_HDRLEN + Size(CanAttrs(info))
    ensures CanWords(s, BODY + 12, IFLA_CAN_CTRLMODE) == info.ctrlmode
  {
    RequestCanWords(s, CanAttrs(info), IFLA_CAN_CTRLMODE);
    CanPayload(info, IFLA_CAN_CTRLMODE);
    if info.ctrlmode.Some? { WordsReadBack(info.ctrlmode.value); }
  }

  lemma OneWord(w: u32)
    ensures ReadWords(ToLE(w, 4)) == [w]
  {
    WordsReadBack([w]);
    assert Words([w]) == ToLE(w, 4);
  }

  /** Each optional attribute is looked up as if it were alone. */
  lemma CanPayload(info: ReqInfo, t: nat)
    ensures LastPayload(CanAttrs(info), t) ==
      if LastPayload(CtrlmodeAttr(info), t).Some? then LastPayload(CtrlmodeAttr(info), t)
      else if LastPayload(BittimingAttr(info), t).Some? then LastPayload(BittimingAttr(info), t)
      else if LastPayload(RestartAttr(info), t).Some? then LastPayload(RestartAttr(info), t)
      else LastPayload(RestartMsAttr(info), t)
  {
    var a, b, c, d := RestartMsAttr(info), RestartAttr(info), BittimingAttr(info), CtrlmodeAttr(info);
    LastPayloadConcat(a + b + c, d, t);
    LastPayloadConcat(a + b, c, t);
    LastPayloadConcat(a, b, t);
  }

  lemma {:induction false} LastPayloadConcat(a: seq<Attr>, b: seq<Attr>, t: nat)
    ensures LastPayload(a + b, t) == if LastPayload(b, t).Some? then LastPayload(b, t) else LastPayload(a, t)
  {
    if b == [] {
      assert a + b == a;
    } else {
      LastPayloadConcat(a, b[..|b| - 1], t);
      assert (a + b)[..|a + b| - 1] == a + b[..|b| - 1];
    }
  }
}
