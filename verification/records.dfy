/**
 Resource records of the responder and the two address-record builders
 (`addAResponse` and `addAAAAResponse` in seed/dns.go).

 The wire format belongs to the DNS library; a record is modelled by the
 fields the responder sets: the header (owner name, type, class, TTL) and
 the record data.
 */
module Records {

  newtype uint16 = x: int | 0 <= x < 0x1_0000
  newtype uint32 = x: int | 0 <= x < 0x1_0000_0000
  type byte = bv8

  /** Record type codes: section 3.2.2 of RFC 1035, section 2.1 of RFC 3596, RFC 2782. */
  const TypeA: uint16 := 1
  const TypeAAAA: uint16 := 28
  const TypeSRV: uint16 := 33
  /** The Internet class, section 3.2.4 of RFC 1035. */
  const ClassINET: uint16 := 1

  /** Every record the responder emits lives for 60 seconds. */
  const Ttl: uint32 := 60
  /** Priority and weight of every emitted service record. */
  const SrvPriority: uint16 := 10
  const SrvWeight: uint16 := 10

  /**
   A peer as the directory hands it out. `ip` is opaque bytes; only bit 0
   of `nodeType` has a meaning here (set: the peer is reachable over IPv6).
   */
  datatype Node = Node(id: string, ip: seq<byte>, port: uint16, nodeType: nat)

  /** The value a Go map lookup yields for a missing key. */
  const ZeroNode: Node := Node("", [], 0, 0)

  /** The bit test `n.Type&1 == 1`. */
  predicate IsIPv6(n: Node) {
    n.nodeType % 2 == 1
  }

  datatype Header = Header(name: string, rrtype: uint16, rrclass: uint16, ttl: uint32)

  datatype RR =
    | A(hdr: Header, a: seq<byte>)
    | AAAA(hdr: Header, aaaa: seq<byte>)
    | SRV(hdr: Header, priority: uint16, weight: uint16, port: uint16, target: string)

  /** The Answer and Additional sections of a reply (section 4.1 of RFC 1035). */
  datatype Reply = Reply(answer: seq<RR>, extra: seq<RR>)

  const EmptyReply: Reply := Reply([], [])

  /**
   The shape every emitted record has: the header type agrees with the kind
   of record, the class is IN, the TTL is 60, and a service record carries
   priority and weight 10.
   */
  predicate WellShaped(rr: RR) {
    && rr.hdr.rrclass == ClassINET
    && rr.hdr.ttl == 60
    && match rr
       case A(h, _) => h.rrtype == TypeA
       case AAAA(h, _) => h.rrtype == TypeAAAA
       case SRV(h, p, w, _, _) => h.rrtype == TypeSRV && p == 10 && w == 10
  }

  /** `rr` is an address record of type `rrtype` for `owner` whose data is `ip`. */
  predicate IsAddressRecord(rr: RR, rrtype: uint16, owner: string, ip: seq<byte>) {
    && WellShaped(rr)
    && rr.hdr.name == owner
    && rr.hdr.rrtype == rrtype
    && ((rr.A? && rr.a == ip) || (rr.AAAA? && rr.aaaa == ip))
  }

  /** Appends one A record for `n` owned by `name` (seed/dns.go, addAResponse). */
  function AddAResponse(n: Node, name: string, responses: seq<RR>): (r: seq<RR>)
    ensures |r| == |responses| + 1
    ensures r[..|responses|] == responses
    ensures IsAddressRecord(r[|responses|], TypeA, name, n.ip)
  {
    responses + [A(Header(name, TypeA, ClassINET, Ttl), n.ip)]
  }

  /** Appends one AAAA record for `n` owned by `name` (seed/dns.go, addAAAAResponse). */
  function AddAAAAResponse(n: Node, name: string, responses: seq<RR>): (r: seq<RR>)
    ensures |r| == |responses| + 1
    ensures r[..|responses|] == responses
    ensures IsAddressRecord(r[|responses|], TypeAAAA, name, n.ip)
  {
    responses + [AAAA(Header(name, TypeAAAA, ClassINET, Ttl), n.ip)]
  }
}
