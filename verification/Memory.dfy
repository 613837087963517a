/** Memory as both allocators see it: live pointers, changes of a stretch of bytes, and the plain map. */
module Memory {
  import opened Bytes

  const MAGIC_BYTE: byte := 153
  const ZERO_BYTE: byte := 255

  /** What a release or a checked access comes to. Outside: the code touches memory that is not there, where
      C promises nothing. */
  datatype Outcome = Accepted | Refused | Outside

  /** Live pointers and the sizes asked for. */
  type Live = map<nat, nat>

  function Fill(n: nat): (r: seq<byte>)
    ensures |r| == n && forall k :: 0 <= k < n ==> r[k] == ZERO_BYTE
  {
    seq(n, _ => ZERO_BYTE)
  }

  /** Changes inside lo .. hi only. */
  ghost predicate Within(s: seq<byte>, s': seq<byte>, lo: nat, hi: nat) {
    |s'| == |s| && forall k :: 0 <= k < |s| && !(lo <= k < hi) ==> s'[k] == s[k]
  }

  lemma PatchWithin(s: seq<byte>, o: nat, d: seq<byte>)
    requires o + |d| <= |s|
    ensures Within(s, Patch(s, o, d), o, o + |d|)
  {
  }

  lemma PatchBytes(s: seq<byte>, o: nat, d: seq<byte>)
    requires o + |d| <= |s|
    ensures forall k :: 0 <= k < |d| ==> Patch(s, o, d)[o + k] == d[k]
  {
  }

  lemma PatchByte(s: seq<byte>, o: nat, b: byte)
    requires o < |s|
    ensures Patch(s, o, [b])[o] == b
    ensures Within(s, Patch(s, o, [b]), o, o + 1)
  {
    PatchWithin(s, o, [b]);
  }

  lemma PatchSlice(s: seq<byte>, p: nat, n: nat, pos: nat, d: seq<byte>)
    requires p + n <= |s| && pos + |d| <= n
    ensures Patch(s, p + pos, d)[p..p + n] == Patch(s[p..p + n], pos, d)
  {
  }

  /** A write inside a payload, seen from memory and from the payload. */
  lemma PayloadPatched(mem: seq<byte>, p: nat, l: nat, pos: nat, data: seq<byte>)
    requires p + l <= |mem| && pos + |data| <= l
    ensures Within(mem, Patch(mem, p + pos, data), p + pos, p + pos + |data|)
    ensures Patch(mem, p + pos, data)[p..p + l] == Patch(mem[p..p + l], pos, data)
  {
    PatchWithin(mem, p + pos, data);
    PatchSlice(mem, p, l, pos, data);
  }

  /** The live pointers other than p, and their sizes, are the same. */
  ghost predicate SameBut(live: Live, live': Live, p: nat) {
    forall q :: q != p ==> (q in live' <==> q in live) && (q in live ==> live'[q] == live[q])
  }

  /** Two maps agree except at p. */
  ghost predicate MapsAgree(v: map<nat, seq<byte>>, v': map<nat, seq<byte>>, p: nat) {
    forall q :: q != p ==> (q in v' <==> q in v) && (q in v ==> v'[q] == v[q])
  }

  lemma MapUpdated(v: map<nat, seq<byte>>, v': map<nat, seq<byte>>, p: nat, d: seq<byte>)
    requires MapsAgree(v, v', p) && p in v' && v'[p] == d
    ensures v' == v[p := d]
  {
    assert forall q :: q in v' <==> q in v[p := d];
  }

  lemma MapRemoved(v: map<nat, seq<byte>>, v': map<nat, seq<byte>>, p: nat)
    requires MapsAgree(v, v', p) && p !in v'
    ensures v' == v - {p}
  {
    assert forall q :: q in v' <==> q in v - {p};
  }
}
