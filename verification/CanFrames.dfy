/** CAN frames and the marker tests of can_scoket1.c. A frame always carries eight octets of storage;
    `dlc` says how many of them were received. */
module CanFrames {

  type octet = bv8

  datatype Frame = Frame(dlc: nat, data: seq<octet>)

  type CanFrame = f: Frame | f.dlc <= 8 && |f.data| == 8
    witness Frame(0, [0, 0, 0, 0, 0, 0, 0, 0])

  predicate IsHead(d: seq<octet>)
    requires |d| >= 4
  {
    d[0] == 0x55 && d[1] == 0xAA && d[2] == 0x55 && d[3] == 0xAA
  }

  predicate IsAtti(d: seq<octet>)
    requires |d| >= 6
  {
    IsHead(d) && d[4] == 0x02 && d[5] == 0x10
  }

  predicate IsMcMode(d: seq<octet>)
    requires |d| >= 6
  {
    IsHead(d) && d[4] == 0x00 && d[5] == 0x10
  }

  predicate IsTail(d: seq<octet>)
    requires |d| >= 4
  {
    d[0] == 0x66 && d[1] == 0xCC && d[2] == 0x66 && d[3] == 0xCC
  }

  /** A frame of a message body: eight octets that neither open nor close a message. */
  predicate IsData(f: CanFrame) {
    f.dlc == 8 && !IsHead(f.data) && !IsTail(f.data[4..])
  }

  function Decode(d: seq<octet>, key: octet): (r: seq<octet>)
    ensures |r| == |d|
  {
    seq(|d|, i requires 0 <= i < |d| => d[i] ^ key)
  }

  /** The markers as byte strings: each test accepts exactly the frames that begin with its own. */
  lemma MarkerBytes(d: seq<octet>)
    requires |d| == 8
    ensures IsHead(d) <==> d[..4] == [0x55, 0xAA, 0x55, 0xAA]
    ensures IsAtti(d) <==> d[..6] == [0x55, 0xAA, 0x55, 0xAA, 0x02, 0x10]
    ensures IsMcMode(d) <==> d[..6] == [0x55, 0xAA, 0x55, 0xAA, 0x00, 0x10]
    ensures IsTail(d) <==> d[..4] == [0x66, 0xCC, 0x66, 0xCC]
    ensures IsTail(d[4..]) <==> d[4..] == [0x66, 0xCC, 0x66, 0xCC]
  {
    assert d[..4] == [d[0], d[1], d[2], d[3]] && d[4..] == [d[4], d[5], d[6], d[7]];
    assert d[..6] == [d[0], d[1], d[2], d[3], d[4], d[5]];
  }

  /** Decoding gives back what the sender put in: the octets before it combined them with the key. */
  lemma DecodeUndoes(p: seq<octet>, key: octet)
    ensures Decode(seq(|p|, i requires 0 <= i < |p| => p[i] ^ key), key) == p
  {
    var sent := seq(|p|, i requires 0 <= i < |p| => p[i] ^ key);
    forall i | 0 <= i < |p|
      ensures Decode(sent, key)[i] == p[i]
    {
      KeyTwice(p[i], key);
    }
  }

  lemma KeyTwice(x: octet, key: octet)
    ensures (x ^ key) ^ key == x
  {
  }
}
