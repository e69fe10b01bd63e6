/**
 The structured packet the handlers receive from the packet library.

 Parsing itself belongs to that library and is not modelled: its outcome is
 an input (`ParseResult`). What the handlers rely on is the shape of a parsed
 packet — its IP protocol number and three separately mutable byte regions
 (base bytes, TCP option bytes, TCP payload bytes) — and the way those regions
 are spliced back into one wire buffer when a packet is accepted.
 */
module Packets {

  import opened Bytes

  /** IP protocol number of TCP. */
  const IP_PROTOCOL_TCP: uint8 := 6
  /** IP protocol number of UDP (used only by `Nfq.UdpIsDropped`). */
  const IP_PROTOCOL_UDP: uint8 := 17

  datatype Packet = Packet(ipProto: uint8, base: Bytes, options: Bytes, data: Bytes)
  {
    predicate IsTcp() {
      ipProto == IP_PROTOCOL_TCP
    }
  }

  /** Outcome of building a structured packet from a raw buffer. */
  datatype ParseResult = CreateError | Parsed(packet: Packet)

  /** The wire buffer of a packet: its base bytes, then its option bytes,
      then its payload bytes, each region intact and in that order. */
  function Wire(p: Packet): (w: Bytes)
    ensures |w| == |p.base| + |p.options| + |p.data|
    ensures w[..|p.base|] == p.base
    ensures w[|p.base|..|p.base| + |p.options|] == p.options
    ensures w[|p.base| + |p.options|..] == p.data
  {
    p.base + p.options + p.data
  }

  /** Cuts a wire buffer into base, option and payload regions of the given
      sizes; the inverse of `Wire`. */
  function Split(w: Bytes, baseLen: nat, optionsLen: nat): (regions: (Bytes, Bytes, Bytes))
    requires baseLen + optionsLen <= |w|
    ensures |regions.0| == baseLen && |regions.1| == optionsLen
    ensures regions.0 + regions.1 + regions.2 == w
  {
    var r := (w[..baseLen], w[baseLen..baseLen + optionsLen], w[baseLen + optionsLen..]);
    assert r.0 + r.1 + r.2 == w by {
      assert w == w[..baseLen] + w[baseLen..];
      assert w[baseLen..] == r.1 + r.2;
    }
    r
  }

  /** Splitting a wire buffer at the region boundaries gives back exactly the
      regions it was assembled from. */
  lemma SplitWire(p: Packet)
    ensures Split(Wire(p), |p.base|, |p.options|) == (p.base, p.options, p.data)
  {
  }

  /** Reassembly loses nothing: two packets with the same protocol and the
      same region sizes that produce the same wire buffer are the same packet. */
  lemma WireInjective(p: Packet, q: Packet)
    requires p.ipProto == q.ipProto
    requires |p.base| == |q.base| && |p.options| == |q.options|
    requires Wire(p) == Wire(q)
    ensures p == q
  {
    SplitWire(p);
    SplitWire(q);
  }
}
