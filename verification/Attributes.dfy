/** Netlink attributes as byte layouts: what addattr_l writes and parse_rtattr reads
    (can_scoket2.c, can-setup.cc; the format is that of section 2.2 of RFC 3549). */
module Attributes {
  import opened Options
  import opened Bytes

  const RTA_HDRLEN: nat := 4

  function Align4(n: nat): (r: nat)
    ensures n <= r < n + 4 && r % 4 == 0 && (n % 4 == 0 ==> r == n)
  {
    (n + 3) / 4 * 4
  }

  function Read16(s: seq<byte>, o: nat): (r: nat)
    requires o + 2 <= |s|
    ensures r < U16
  {
    StoreLoaded(s[o..o + 2]);
    Widths();
    FromLE(s[o..o + 2])
  }

  function Read32(s: seq<byte>, o: nat): (r: nat)
    requires o + 4 <= |s|
    ensures r < U32
  {
    StoreLoaded(s[o..o + 4]);
    Widths();
    FromLE(s[o..o + 4])
  }

  datatype Attr = Attr(kind: nat, payload: seq<byte>) {
    /** The type and the length fit their 16-bit fields. */
    predicate Fits() {
      kind < U16 && RTA_HDRLEN + |payload| < U16
    }

    function Len(): nat {
      RTA_HDRLEN + |payload|
    }

    function Footprint(): nat {
      Align4(Len())
    }
  }

  function Size(attrs: seq<Attr>): nat {
    if attrs == [] then 0 else attrs[0].Footprint() + Size(attrs[1..])
  }

  // ---------------------------------------------------------------- layout

  /** The attribute header fields at position o. */
  function LenAt(s: seq<byte>, o: nat): nat
    requires o + RTA_HDRLEN <= |s|
  {
    Read16(s, o)
  }

  function KindAt(s: seq<byte>, o: nat): nat
    requires o + RTA_HDRLEN <= |s|
  {
    Read16(s, o + 2)
  }

  /** Attribute a lies at position o; its padding may hold anything. */
  ghost predicate Holds(s: seq<byte>, o: nat, a: Attr) {
    && o + a.Footprint() <= |s|
    && LenAt(s, o) == a.Len()
    && KindAt(s, o) == a.kind
    && s[o + RTA_HDRLEN..o + a.Len()] == a.payload
  }

  ghost predicate Encodes(s: seq<byte>, o: nat, attrs: seq<Attr>)
    decreases |attrs|
  {
    attrs == [] || (Holds(s, o, attrs[0]) && Encodes(s, o + attrs[0].Footprint(), attrs[1..]))
  }

  lemma HoldsElsewhere(s: seq<byte>, s': seq<byte>, o: nat, a: Attr)
    requires Holds(s, o, a) && o + a.Footprint() <= |s'|
    requires s[o..o + a.Footprint()] == s'[o..o + a.Footprint()]
    ensures Holds(s', o, a)
  {
    var e := o + a.Footprint();
    EqualParts(s, s', o, e, o, o + 2);
    EqualParts(s, s', o, e, o + 2, o + 2 + 2);
    EqualParts(s, s', o, e, o + RTA_HDRLEN, o + a.Len());
  }

  /** An encoding depends on its own bytes only. */
  lemma {:induction false} EncodesElsewhere(s: seq<byte>, s': seq<byte>, o: nat, attrs: seq<Attr>)
    requires Encodes(s, o, attrs)
    requires o + Size(attrs) <= |s| && o + Size(attrs) <= |s'|
    requires s[o..o + Size(attrs)] == s'[o..o + Size(attrs)]
    ensures Encodes(s', o, attrs)
    decreases |attrs|
  {
    if attrs != [] {
      var n, e := attrs[0].Footprint(), o + Size(attrs);
      EqualParts(s, s', o, e, o, o + n);
      EqualParts(s, s', o, e, o + n, e);
      HoldsElsewhere(s, s', o, attrs[0]);
      EncodesElsewhere(s, s', o + n, attrs[1..]);
    }
  }

  lemma {:induction false} SizeSnoc(attrs: seq<Attr>, a: Attr)
    ensures Size(attrs + [a]) == Size(attrs) + a.Footprint()
  {
    if attrs != [] {
      SizeSnoc(attrs[1..], a);
      assert (attrs + [a])[1..] == attrs[1..] + [a];
    }
  }

  lemma {:induction false} EncodesSnoc(s: seq<byte>, o: nat, attrs: seq<Attr>, a: Attr)
    requires Encodes(s, o, attrs) && Holds(s, o + Size(attrs), a)
    ensures Encodes(s, o, attrs + [a])
    decreases |attrs|
  {
    if attrs != [] {
      EncodesSnoc(s, o + attrs[0].Footprint(), attrs[1..], a);
      assert (attrs + [a])[1..] == attrs[1..] + [a];
    }
  }

  // ---------------------------------------------------------------- the walk

  /** RTA_OK: a header fits, and the attribute it announces fits. */
  predicate RtaOk(s: seq<byte>, o: nat, len: int)
    requires len > 0 ==> o + len <= |s|
  {
    len >= RTA_HDRLEN && RTA_HDRLEN <= LenAt(s, o) <= len
  }

  /** Positions of the attributes that the tolerant walk visits, in order. */
  function Walk(s: seq<byte>, o: nat, len: int): (r: seq<nat>)
    requires len > 0 ==> o + len <= |s|
    decreases if len > 0 then len else 0
  {
    if !RtaOk(s, o, len) then []
    else [o] + Walk(s, o + Align4(LenAt(s, o)), len - Align4(LenAt(s, o)))
  }

  /** On any byte region every visited attribute, header and payload, lies inside the region. */
  lemma {:induction false} WalkStaysInside(s: seq<byte>, o: nat, len: int, n: nat)
    requires len > 0 ==> o + len <= |s|
    requires n < |Walk(s, o, len)|
    ensures var a := Walk(s, o, len)[n];
      o <= a && a + RTA_HDRLEN <= |s| && RTA_HDRLEN <= LenAt(s, a) && a + LenAt(s, a) <= o + len
    decreases n
  {
    if n > 0 {
      WalkStaysInside(s, o + Align4(LenAt(s, o)), len - Align4(LenAt(s, o)), n - 1);
    }
  }

  /** The last of the given positions that holds an attribute of type t. */
  function Last(s: seq<byte>, at: seq<nat>, t: nat): (r: Option<nat>)
    requires forall n :: 0 <= n < |at| ==> at[n] + RTA_HDRLEN <= |s|
    ensures r.Some? ==> r.value in at && r.value + RTA_HDRLEN <= |s| && KindAt(s, r.value) == t
  {
    if at == [] then None
    else
      var a := at[|at| - 1];
      if KindAt(s, a) == t then Some(a) else Last(s, at[..|at| - 1], t)
  }

  /** The entry parse_rtattr finds for type t in a region. */
  function Find(s: seq<byte>, o: nat, len: int, t: nat): (r: Option<nat>)
    requires len > 0 ==> o + len <= |s|
    ensures r.Some? ==> o <= r.value && r.value + RTA_HDRLEN <= |s| && KindAt(s, r.value) == t
    ensures r.Some? ==> RTA_HDRLEN <= LenAt(s, r.value) && r.value + LenAt(s, r.value) <= o + len
  {
    WalkInside(s, o, len);
    Last(s, Walk(s, o, len), t)
  }

  lemma WalkInside(s: seq<byte>, o: nat, len: int)
    requires len > 0 ==> o + len <= |s|
    ensures forall n :: 0 <= n < |Walk(s, o, len)| ==>
      var a := Walk(s, o, len)[n];
      o <= a && a + RTA_HDRLEN <= |s| && RTA_HDRLEN <= LenAt(s, a) && a + LenAt(s, a) <= o + len
  {
    forall n | 0 <= n < |Walk(s, o, len)|
      ensures var a := Walk(s, o, len)[n];
        o <= a && a + RTA_HDRLEN <= |s| && RTA_HDRLEN <= LenAt(s, a) && a + LenAt(s, a) <= o + len
    {
      WalkStaysInside(s, o, len, n);
    }
  }

  /** Position n of the walk is the last one with type t. */
  ghost predicate LastAt(s: seq<byte>, at: seq<nat>, t: nat, n: nat)
    requires forall i :: 0 <= i < |at| ==> at[i] + RTA_HDRLEN <= |s|
  {
    n < |at| && KindAt(s, at[n]) == t && forall m :: n < m < |at| ==> KindAt(s, at[m]) != t
  }

  lemma {:induction false} LastMeans(s: seq<byte>, at: seq<nat>, t: nat)
    requires forall i :: 0 <= i < |at| ==> at[i] + RTA_HDRLEN <= |s|
    ensures match Last(s, at, t)
      case None => forall n :: 0 <= n < |at| ==> KindAt(s, at[n]) != t
      case Some(a) => exists n :: 0 <= n < |at| && at[n] == a && LastAt(s, at, t, n)
    decreases |at|
  {
    hide KindAt;
    if at != [] {
      var k := |at| - 1;
      if KindAt(s, at[k]) == t {
        assert LastAt(s, at, t, k);
      } else {
        LastMeans(s, at[..k], t);
        if Last(s, at[..k], t).Some? {
          var n :| 0 <= n < k && at[n] == Last(s, at[..k], t).value && LastAt(s, at[..k], t, n);
          forall m | n < m < |at|
            ensures KindAt(s, at[m]) != t
          {
            if m < k { assert at[..k][m] == at[m]; }
          }
          assert LastAt(s, at, t, n);
        } else {
          forall m | 0 <= m < |at|
            ensures KindAt(s, at[m]) != t
          {
            if m < k { assert at[..k][m] == at[m]; }
          }
        }
      }
    }
  }

  /** On any byte region: an entry is the last attribute of its type that the walk visits, and there is none
      exactly when the walk visits none of that type. */
  lemma FindIsLast(s: seq<byte>, o: nat, len: int, t: nat)
    requires len > 0 ==> o + len <= |s|
    ensures var at := Walk(s, o, len);
      && (forall i :: 0 <= i < |at| ==> at[i] + RTA_HDRLEN <= |s|)
      && match Find(s, o, len, t)
         case None => forall n :: 0 <= n < |at| ==> KindAt(s, at[n]) != t
         case Some(a) => exists n :: 0 <= n < |at| && at[n] == a && LastAt(s, at, t, n)
  {
    hide Walk, KindAt;
    WalkInside(s, o, len);
    LastMeans(s, Walk(s, o, len), t);
  }

  // ---------------------------------------------------------------- round trip

  /** Where the attributes of an encoding lie. */
  function Places(o: nat, attrs: seq<Attr>): (r: seq<nat>)
    ensures |r| == |attrs|
    decreases |attrs|
  {
    if attrs == [] then [] else [o] + Places(o + attrs[0].Footprint(), attrs[1..])
  }

  /** The walk visits an attribute that fits the region, then goes on behind it. */
  lemma WalkStep(s: seq<byte>, o: nat, a: Attr, len: int)
    requires Holds(s, o, a) && a.Footprint() <= len && o + len <= |s|
    ensures Walk(s, o, len) == [o] + Walk(s, o + a.Footprint(), len - a.Footprint())
  {
    hide Read16;
    assert RtaOk(s, o, len);
  }

  /** The walk over an encoding visits its attributes in order, and stops where no other follows. */
  lemma {:induction false} WalkEncoded(s: seq<byte>, o: nat, attrs: seq<Attr>, len: int)
    requires Encodes(s, o, attrs) && Size(attrs) <= len && o + len <= |s|
    requires !RtaOk(s, o + Size(attrs), len - Size(attrs))
    ensures Walk(s, o, len) == Places(o, attrs)
    decreases |attrs|
  {
    hide Attr.Footprint, RtaOk, Holds;
    if attrs != [] {
      var n := attrs[0].Footprint();
      WalkStep(s, o, attrs[0], len);
      WalkEncoded(s, o + n, attrs[1..], len - n);
    }
  }

  lemma {:induction false} PlacesHold(s: seq<byte>, o: nat, attrs: seq<Attr>, n: nat)
    requires Encodes(s, o, attrs) && n < |attrs|
    ensures Holds(s, Places(o, attrs)[n], attrs[n])
    decreases |attrs|
  {
    if n > 0 {
      PlacesHold(s, o + attrs[0].Footprint(), attrs[1..], n - 1);
    }
  }

  function PayloadAt(s: seq<byte>, a: nat): seq<byte>
    requires a + RTA_HDRLEN <= |s| && RTA_HDRLEN <= LenAt(s, a) && a + LenAt(s, a) <= |s|
  {
    s[a + RTA_HDRLEN..a + LenAt(s, a)]
  }

  /** The payload of the last attribute of type t. */
  function LastPayload(attrs: seq<Attr>, t: nat): Option<seq<byte>> {
    if attrs == [] then None
    else if attrs[|attrs| - 1].kind == t then Some(attrs[|attrs| - 1].payload)
    else LastPayload(attrs[..|attrs| - 1], t)
  }

  lemma HeldPayload(s: seq<byte>, o: nat, a: Attr)
    requires Holds(s, o, a)
    ensures o + RTA_HDRLEN <= |s| && RTA_HDRLEN <= LenAt(s, o) && o + LenAt(s, o) <= |s|
    ensures KindAt(s, o) == a.kind && PayloadAt(s, o) == a.payload
  {
    hide Read16;
  }

  /** The payload is that of the last attribute of its type. */
  lemma {:induction false} LastPayloadMeans(attrs: seq<Attr>, t: nat)
    ensures match LastPayload(attrs, t)
      case None => forall n :: 0 <= n < |attrs| ==> attrs[n].kind != t
      case Some(p) => exists n :: 0 <= n < |attrs| && attrs[n] == Attr(t, p) && NoneBehind(attrs, t, n)
  {
    if attrs != [] {
      var k := |attrs| - 1;
      if attrs[k].kind == t {
        assert NoneBehind(attrs, t, k);
      } else {
        LastPayloadMeans(attrs[..k], t);
        if LastPayload(attrs[..k], t).Some? {
          var n :| 0 <= n < k && attrs[..k][n] == Attr(t, LastPayload(attrs[..k], t).value)
            && NoneBehind(attrs[..k], t, n);
          forall m | n < m < |attrs|
            ensures attrs[m].kind != t
          {
            if m < k { assert attrs[..k][m] == attrs[m]; }
          }
          assert NoneBehind(attrs, t, n);
        } else {
          forall m | 0 <= m < |attrs|
            ensures attrs[m].kind != t
          {
            if m < k { assert attrs[..k][m] == attrs[m]; }
          }
        }
      }
    }
  }

  ghost predicate NoneBehind(attrs: seq<Attr>, t: nat, n: nat) {
    forall m :: n < m < |attrs| ==> attrs[m].kind != t
  }

  /** The last position of a type holds the last attribute of that type. */
  lemma {:induction false} LastOfPlaces(s: seq<byte>, at: seq<nat>, attrs: seq<Attr>, t: nat)
    requires |at| == |attrs|
    requires forall n :: 0 <= n < |at| ==> Holds(s, at[n], attrs[n]) && at[n] + RTA_HDRLEN <= |s|
    ensures match Last(s, at, t)
      case None => LastPayload(attrs, t) == None
      case Some(a) =>
        && RTA_HDRLEN <= LenAt(s, a) && a + LenAt(s, a) <= |s|
        && LastPayload(attrs, t) == Some(PayloadAt(s, a))
    decreases |at|
  {
    hide Holds, LenAt, KindAt, PayloadAt;
    if at != [] {
      var n := |at| - 1;
      HeldPayload(s, at[n], attrs[n]);
      LastOfPlaces(s, at[..n], attrs[..n], t);
    }
  }

  /** Flat round trip: parsing an encoding finds, for each type, the last attribute of that type with
      its exact payload, and nothing for a type that does not occur. Bytes of the region behind the
      encoding do not matter as long as they do not look like an attribute. */
  lemma FlatRoundTrip(s: seq<byte>, o: nat, attrs: seq<Attr>, len: int, t: nat)
    requires Encodes(s, o, attrs) && Size(attrs) <= len && o + len <= |s|
    requires !RtaOk(s, o + Size(attrs), len - Size(attrs))
    ensures match Find(s, o, len, t)
      case None => LastPayload(attrs, t) == None
      case Some(a) => LastPayload(attrs, t) == Some(PayloadAt(s, a))
  {
    WalkEncoded(s, o, attrs, len);
    WalkInside(s, o, len);
    forall n | 0 <= n < |attrs|
      ensures Holds(s, Places(o, attrs)[n], attrs[n])
    {
      PlacesHold(s, o, attrs, n);
    }
    LastOfPlaces(s, Places(o, attrs), attrs, t);
  }
}
