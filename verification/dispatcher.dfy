/**
 The query dispatcher of seed/dns.go: the apex handlers `handleAAAAQuery`,
 `handleAQuery` and `handleSRVQuery`, and `handleLightningDns`, which
 classifies a question by name and type and assembles the reply.

 The peer directory enters as two parameters: `sampler`, standing for
 `RandomSample(count, pool)` with whatever nodes it returns on this call,
 and `nodes`, the directory's map from id to node.
 */
module Dispatcher {
  import opened Wrappers
  import opened Records
  import opened NodeIdCodec

  /** Owner name of every service record (seed/dns.go:80). */
  const SrvOwner: string := "_lightning._tcp.bitcoinstats.com."

  /** Arguments of the three `RandomSample` calls. */
  const AAAASampleCount: nat := 3
  const ASampleCount: nat := 2
  const SrvSampleCount: nat := 255
  const SamplePool: nat := 25

  datatype Question = Question(name: string, qtype: uint16)

  type Sampler = (nat, nat) -> seq<Node>

  /** The Go map lookup `nodes[id]`: a miss yields the zero node. */
  function Lookup(nodes: map<string, Node>, id: string): (n: Node)
    ensures id in nodes ==> n == nodes[id]
    ensures id !in nodes ==> n.nodeType == 0 && n.ip == [] && !IsIPv6(n)
  {
    if id in nodes then nodes[id] else ZeroNode
  }

  /** Every node's id is long enough for the slices of seed/dns.go:87. */
  predicate IdsSliceable(sample: seq<Node>) {
    forall i :: 0 <= i < |sample| ==> |sample[i].id| >= 64
  }

  /** The address type a node's declared family calls for (seed/dns.go:97). */
  function FamilyType(n: Node): (t: uint16)
    ensures t == TypeAAAA <==> IsIPv6(n)
    ensures t == TypeA || t == TypeAAAA
  {
    if n.nodeType % 2 == 1 then TypeAAAA else TypeA
  }

  /** `rr` is the service record advertising `port` at `target`. */
  predicate IsSrvRecord(rr: RR, port: uint16, target: string) {
    && rr.SRV?
    && WellShaped(rr)
    && rr.hdr.name == SrvOwner
    && rr.port == port
    && rr.target == target
  }

  /** The Answer and Additional entry one node contributes to an SRV reply. */
  predicate SrvEntry(srv: RR, addr: RR, n: Node)
    requires |n.id| >= 64
  {
    && IsSrvRecord(srv, n.port, NodeName(n.id))
    && IsAddressRecord(addr, FamilyType(n), NodeName(n.id), n.ip)
  }

  /**
   The loop of `handleAQuery` / `handleAAAAQuery`: one address record of
   type `rrtype` per node, in order, appended behind `acc`.
   */
  function AppendAddresses(rrtype: uint16, sample: seq<Node>, owner: string, acc: seq<RR>): (r: seq<RR>)
    requires rrtype == TypeA || rrtype == TypeAAAA
    ensures |r| == |acc| + |sample|
    ensures r[..|acc|] == acc
    ensures forall i :: 0 <= i < |sample| ==> IsAddressRecord(r[|acc| + i], rrtype, owner, sample[i].ip)
    decreases |sample|
  {
    if sample == [] then acc
    else
      var acc' := if rrtype == TypeA then AddAResponse(sample[0], owner, acc)
                  else AddAAAAResponse(sample[0], owner, acc);
      AppendAddresses(rrtype, sample[1..], owner, acc')
  }

  /** `handleAAAAQuery`: one AAAA record per node of a (3, 25) sample, into Answer. */
  function HandleAAAAQuery(sampler: Sampler, qname: string, m: Reply): (r: Reply)
    ensures r.extra == m.extra
    ensures |r.answer| == |m.answer| + |sampler(AAAASampleCount, SamplePool)|
    ensures r.answer[..|m.answer|] == m.answer
    ensures forall i :: 0 <= i < |sampler(AAAASampleCount, SamplePool)| ==>
      IsAddressRecord(r.answer[|m.answer| + i], TypeAAAA, qname, sampler(AAAASampleCount, SamplePool)[i].ip)
  {
    m.(answer := AppendAddresses(TypeAAAA, sampler(AAAASampleCount, SamplePool), qname, m.answer))
  }

  /** `handleAQuery`: one A record per node of a (2, 25) sample, into Answer. */
  function HandleAQuery(sampler: Sampler, qname: string, m: Reply): (r: Reply)
    ensures r.extra == m.extra
    ensures |r.answer| == |m.answer| + |sampler(ASampleCount, SamplePool)|
    ensures r.answer[..|m.answer|] == m.answer
    ensures forall i :: 0 <= i < |sampler(ASampleCount, SamplePool)| ==>
      IsAddressRecord(r.answer[|m.answer| + i], TypeA, qname, sampler(ASampleCount, SamplePool)[i].ip)
  {
    m.(answer := AppendAddresses(TypeA, sampler(ASampleCount, SamplePool), qname, m.answer))
  }

  /**
   One iteration of the `handleSRVQuery` loop: a service record pointing at
   the node's encoded name goes to Answer, and an address record of the
   node's family, owned by that name, goes to Additional.
   */
  function SrvIteration(n: Node, m: Reply): (m': Reply)
    requires |n.id| >= 64
    ensures |m'.answer| == |m.answer| + 1 && m'.answer[..|m.answer|] == m.answer
    ensures |m'.extra| == |m.extra| + 1 && m'.extra[..|m.extra|] == m.extra
    ensures SrvEntry(m'.answer[|m.answer|], m'.extra[|m.extra|], n)
  {
    var nodeName := NodeName(n.id);
    var rr := SRV(Header(SrvOwner, TypeSRV, ClassINET, Ttl), SrvPriority, SrvWeight, n.port, nodeName);
    var extra := if n.nodeType % 2 == 1 then AddAAAAResponse(n, nodeName, m.extra)
                 else AddAResponse(n, nodeName, m.extra);
    Reply(m.answer + [rr], extra)
  }

  /** The loop of `handleSRVQuery`: one SRV/address pair per node, in order. */
  function AppendSrv(sample: seq<Node>, m: Reply): (r: Reply)
    requires IdsSliceable(sample)
    ensures |r.answer| == |m.answer| + |sample| && |r.extra| == |m.extra| + |sample|
    ensures r.answer[..|m.answer|] == m.answer && r.extra[..|m.extra|] == m.extra
    ensures forall i :: 0 <= i < |sample| ==> SrvEntry(r.answer[|m.answer| + i], r.extra[|m.extra| + i], sample[i])
    decreases |sample|
  {
    if sample == [] then m
    else
      var m' := SrvIteration(sample[0], m);
      var r := AppendSrv(sample[1..], m');
      SrvStep(sample, m, m', r);
      r
  }

  /** One iteration of the SRV loop extends what the remaining iterations add. */
  lemma SrvStep(sample: seq<Node>, m: Reply, m': Reply, r: Reply)
    requires IdsSliceable(sample) && |sample| >= 1
    requires |m'.answer| == |m.answer| + 1 && m'.answer[..|m.answer|] == m.answer
    requires |m'.extra| == |m.extra| + 1 && m'.extra[..|m.extra|] == m.extra
    requires SrvEntry(m'.answer[|m.answer|], m'.extra[|m.extra|], sample[0])
    requires |r.answer| == |m'.answer| + |sample| - 1 && |r.extra| == |m'.extra| + |sample| - 1
    requires r.answer[..|m'.answer|] == m'.answer && r.extra[..|m'.extra|] == m'.extra
    requires forall i :: 0 <= i < |sample| - 1 ==> SrvEntry(r.answer[|m'.answer| + i], r.extra[|m'.extra| + i], sample[1..][i])
    ensures r.answer[..|m.answer|] == m.answer && r.extra[..|m.extra|] == m.extra
    ensures forall i :: 0 <= i < |sample| ==> SrvEntry(r.answer[|m.answer| + i], r.extra[|m.extra| + i], sample[i])
  {
    assert r.answer[..|m.answer|] == r.answer[..|m'.answer|][..|m.answer|];
    assert r.extra[..|m.extra|] == r.extra[..|m'.extra|][..|m.extra|];
    forall i | 0 <= i < |sample|
      ensures SrvEntry(r.answer[|m.answer| + i], r.extra[|m.extra| + i], sample[i])
    {
      if i == 0 {
        assert r.answer[|m.answer|] == r.answer[..|m'.answer|][|m.answer|];
        assert r.extra[|m.extra|] == r.extra[..|m'.extra|][|m.extra|];
      } else {
        assert sample[1..][i - 1] == sample[i];
      }
    }
  }

  /** `handleSRVQuery`: the SRV/address pairs for a (255, 25) sample. */
  function HandleSRVQuery(sampler: Sampler, m: Reply): (r: Reply)
    requires IdsSliceable(sampler(SrvSampleCount, SamplePool))
    ensures |r.answer| == |m.answer| + |sampler(SrvSampleCount, SamplePool)|
    ensures |r.extra| == |m.extra| + |sampler(SrvSampleCount, SamplePool)|
    ensures r.answer[..|m.answer|] == m.answer && r.extra[..|m.extra|] == m.extra
    ensures forall i :: 0 <= i < |sampler(SrvSampleCount, SamplePool)| ==>
      SrvEntry(r.answer[|m.answer| + i], r.extra[|m.extra| + i], sampler(SrvSampleCount, SamplePool)[i])
  {
    AppendSrv(sampler(SrvSampleCount, SamplePool), m)
  }

  /** The requested type agrees with the node's declared family. */
  predicate FamilyMatches(n: Node, qtype: uint16) {
    IsIPv6(n) <==> qtype == TypeAAAA
  }

  /**
   The per-peer reply of seed/dns.go:145-157: for an A or AAAA question one
   record of that type, in Answer when the node's family matches and in
   Additional otherwise; for any other type nothing.
   */
  function PeerResponse(n: Node, name: string, qtype: uint16, m: Reply): (r: Reply)
    ensures qtype != TypeA && qtype != TypeAAAA ==> r == m
    ensures qtype == TypeA || qtype == TypeAAAA ==>
      if FamilyMatches(n, qtype) then
        && r.extra == m.extra && |r.answer| == |m.answer| + 1 && r.answer[..|m.answer|] == m.answer
        && IsAddressRecord(r.answer[|m.answer|], qtype, name, n.ip)
      else
        && r.answer == m.answer && |r.extra| == |m.extra| + 1 && r.extra[..|m.extra|] == m.extra
        && IsAddressRecord(r.extra[|m.extra|], qtype, name, n.ip)
  {
    if qtype == TypeAAAA then
      if n.nodeType % 2 == 1 then m.(answer := AddAAAAResponse(n, name, m.answer))
      else m.(extra := AddAAAAResponse(n, name, m.extra))
    else if qtype == TypeA then
      if n.nodeType % 2 == 0 then m.(answer := AddAResponse(n, name, m.answer))
      else m.(extra := AddAResponse(n, name, m.extra))
    else m
  }

  /** The apex reply to an A or AAAA question: one record per sampled node, in order, nothing extra. */
  predicate ApexAddressReply(r: Reply, rrtype: uint16, owner: string, sample: seq<Node>) {
    && |r.answer| == |sample|
    && r.extra == []
    && forall i :: 0 <= i < |sample| ==> IsAddressRecord(r.answer[i], rrtype, owner, sample[i].ip)
  }

  /** The apex reply to an SRV question: Answer and Additional paired per sampled node. */
  predicate SrvReply(r: Reply, sample: seq<Node>)
    requires IdsSliceable(sample)
  {
    && |r.answer| == |sample|
    && |r.extra| == |sample|
    && forall i :: 0 <= i < |sample| ==> SrvEntry(r.answer[i], r.extra[i], sample[i])
  }

  /** The reply to a per-peer question about node `n`. */
  predicate PeerReply(r: Reply, n: Node, name: string, qtype: uint16) {
    if qtype == TypeA || qtype == TypeAAAA then
      if FamilyMatches(n, qtype) then
        |r.answer| == 1 && r.extra == [] && IsAddressRecord(r.answer[0], qtype, name, n.ip)
      else
        r.answer == [] && |r.extra| == 1 && IsAddressRecord(r.extra[0], qtype, name, n.ip)
    else r == EmptyReply
  }

  /** What the source demands of the directory: SRV samples hold ids of at least 64 characters. */
  predicate CanServe(q: Question, sampler: Sampler) {
    q.name == ApexName && q.qtype == TypeSRV ==> IdsSliceable(sampler(SrvSampleCount, SamplePool))
  }

  /**
   `handleLightningDns`. `None` is the early return of a name that fails
   the decoder, where no reply is written; otherwise the written reply.
   */
  function HandleLightningDns(q: Question, sampler: Sampler, nodes: map<string, Node>): (r: Option<Reply>)
    requires CanServe(q, sampler)
    ensures r.None? <==> q.name != ApexName && DecodeNodeName(q.name).None?
    ensures q.name == ApexName && q.qtype == TypeAAAA ==>
      r.Some? && ApexAddressReply(r.value, TypeAAAA, q.name, sampler(AAAASampleCount, SamplePool))
    ensures q.name == ApexName && q.qtype == TypeA ==>
      r.Some? && ApexAddressReply(r.value, TypeA, q.name, sampler(ASampleCount, SamplePool))
    ensures q.name == ApexName && q.qtype == TypeSRV ==>
      r.Some? && SrvReply(r.value, sampler(SrvSampleCount, SamplePool))
    ensures q.name == ApexName && q.qtype != TypeA && q.qtype != TypeAAAA && q.qtype != TypeSRV ==>
      r == Some(EmptyReply)
    ensures q.name != ApexName && DecodeNodeName(q.name).Some? ==>
      r.Some? && PeerReply(r.value, Lookup(nodes, DecodeNodeName(q.name).value), q.name, q.qtype)
  {
    var m := EmptyReply;
    if q.name == ApexName then
      if q.qtype == TypeAAAA then Some(HandleAAAAQuery(sampler, q.name, m))
      else if q.qtype == TypeA then Some(HandleAQuery(sampler, q.name, m))
      else if q.qtype == TypeSRV then Some(HandleSRVQuery(sampler, m))
      else Some(m)
    else
      match DecodeNodeName(q.name)
      case None => None
      case Some(id) => Some(PeerResponse(Lookup(nodes, id), q.name, q.qtype, m))
  }
}
