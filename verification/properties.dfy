/**
 Properties of whole replies of `handleLightningDns`, stated across its
 branches and across the codec.
 */
module ReplyProperties {
  import opened Wrappers
  import opened Records
  import opened NodeIdCodec
  import opened Dispatcher

  /** Every record of `r` has class IN, TTL 60 and a header type matching its kind. */
  predicate AllWellShaped(r: Reply) {
    && (forall rr :: rr in r.answer ==> WellShaped(rr))
    && (forall rr :: rr in r.extra ==> WellShaped(rr))
  }

  /** Every Answer record of `r` has type `t`. */
  predicate AnswerOfType(r: Reply, t: uint16) {
    forall rr :: rr in r.answer ==> rr.hdr.rrtype == t
  }

  lemma ApexAddressReplyShape(r: Reply, rrtype: uint16, owner: string, sample: seq<Node>)
    requires ApexAddressReply(r, rrtype, owner, sample)
    ensures AllWellShaped(r) && AnswerOfType(r, rrtype)
  {
    forall rr | rr in r.answer ensures WellShaped(rr) && rr.hdr.rrtype == rrtype {
      var i :| 0 <= i < |r.answer| && r.answer[i] == rr;
      assert IsAddressRecord(r.answer[i], rrtype, owner, sample[i].ip);
    }
  }

  lemma SrvReplyShape(r: Reply, sample: seq<Node>)
    requires IdsSliceable(sample)
    requires SrvReply(r, sample)
    ensures AllWellShaped(r) && AnswerOfType(r, TypeSRV)
  {
    forall rr | rr in r.answer ensures WellShaped(rr) && rr.hdr.rrtype == TypeSRV {
      var i :| 0 <= i < |r.answer| && r.answer[i] == rr;
      assert SrvEntry(r.answer[i], r.extra[i], sample[i]);
    }
    forall rr | rr in r.extra ensures WellShaped(rr) {
      var i :| 0 <= i < |r.extra| && r.extra[i] == rr;
      assert SrvEntry(r.answer[i], r.extra[i], sample[i]);
    }
  }

  lemma PeerReplyShape(r: Reply, n: Node, name: string, qtype: uint16)
    requires PeerReply(r, n, name, qtype)
    ensures AllWellShaped(r) && AnswerOfType(r, qtype)
  {
  }

  /**
   Every record of every written reply has class IN, TTL 60 and a header
   type matching its kind, and Answer never holds a record of a type other
   than the one asked for.
   */
  lemma RepliesWellShaped(q: Question, sampler: Sampler, nodes: map<string, Node>)
    requires CanServe(q, sampler)
    ensures HandleLightningDns(q, sampler, nodes).Some? ==>
      && AllWellShaped(HandleLightningDns(q, sampler, nodes).value)
      && AnswerOfType(HandleLightningDns(q, sampler, nodes).value, q.qtype)
  {
    var res := HandleLightningDns(q, sampler, nodes);
    if res.Some? {
      var r := res.value;
      if q.name != ApexName {
        PeerReplyShape(r, Lookup(nodes, DecodeNodeName(q.name).value), q.name, q.qtype);
      } else if q.qtype == TypeSRV {
        SrvReplyShape(r, sampler(SrvSampleCount, SamplePool));
      } else if q.qtype == TypeA {
        ApexAddressReplyShape(r, TypeA, q.name, sampler(ASampleCount, SamplePool));
      } else if q.qtype == TypeAAAA {
        ApexAddressReplyShape(r, TypeAAAA, q.name, sampler(AAAASampleCount, SamplePool));
      }
    }
  }

  /**
   A per-peer question gets at most one record in all, and gets one
   exactly when it asks for A or AAAA.
   */
  lemma PeerQueryAtMostOneRecord(q: Question, sampler: Sampler, nodes: map<string, Node>)
    requires CanServe(q, sampler)
    requires q.name != ApexName
    ensures HandleLightningDns(q, sampler, nodes).Some? ==>
      var r := HandleLightningDns(q, sampler, nodes).value;
      && |r.answer| + |r.extra| <= 1
      && (|r.answer| + |r.extra| == 1 <==> q.qtype == TypeA || q.qtype == TypeAAAA)
  {
  }

  /**
   A lookup miss does not stop the reply: the zero node (family bit 0, no
   address) answers an A question with one empty A record in Answer and an
   AAAA question with one empty AAAA record in Additional.
   */
  lemma LookupMissUsesZeroNode(q: Question, sampler: Sampler, nodes: map<string, Node>)
    requires q.name != ApexName
    requires DecodeNodeName(q.name).Some? && DecodeNodeName(q.name).value !in nodes
    ensures q.qtype == TypeA ==>
      HandleLightningDns(q, sampler, nodes) == Some(Reply([A(Header(q.name, TypeA, ClassINET, 60), [])], []))
    ensures q.qtype == TypeAAAA ==>
      HandleLightningDns(q, sampler, nodes) == Some(Reply([], [AAAA(Header(q.name, TypeAAAA, ClassINET, 60), [])]))
  {
  }

  /**
   A name that is neither the apex nor splits into three parts whose first
   two carry 65 characters gets no reply at all.
   */
  lemma MalformedNameNoReply(q: Question, sampler: Sampler, nodes: map<string, Node>)
    requires q.name != ApexName
    requires forall p0, p1, rest :: '.' !in p0 && '.' !in p1 && |p0| + |p1| == LabelsLength ==>
      PeerName(p0, p1, rest) != q.name
    ensures HandleLightningDns(q, sampler, nodes) == None
  {
    if DecodeNodeName(q.name).Some? {
      var p0, p1, rest := DecodeOnlyAccepts(q.name);
    }
  }

  /**
   The SRV reply's targets lead back to the sampled nodes: the i-th
   Additional record is owned by the i-th target, and for ids of 66
   characters starting with '0' the target decodes to the node's id.
   */
  lemma SrvTargetsDecodeToIds(q: Question, sampler: Sampler, nodes: map<string, Node>)
    requires q.name == ApexName && q.qtype == TypeSRV
    requires CanServe(q, sampler)
    requires forall n :: n in sampler(SrvSampleCount, SamplePool) ==>
      |n.id| == IdLength && n.id[0] == '0' && '.' !in n.id
    ensures HandleLightningDns(q, sampler, nodes).Some?
    ensures
      var r := HandleLightningDns(q, sampler, nodes).value;
      var sample := sampler(SrvSampleCount, SamplePool);
      forall i :: 0 <= i < |sample| ==>
        && r.answer[i].SRV?
        && r.extra[i].hdr.name == r.answer[i].target
        && DecodeNodeName(r.answer[i].target) == Some(sample[i].id)
  {
    var r := HandleLightningDns(q, sampler, nodes).value;
    var sample := sampler(SrvSampleCount, SamplePool);
    forall i | 0 <= i < |sample|
      ensures r.answer[i].SRV?
      ensures r.extra[i].hdr.name == r.answer[i].target
      ensures DecodeNodeName(r.answer[i].target) == Some(sample[i].id)
    {
      assert sample[i] in sample;
      assert SrvEntry(r.answer[i], r.extra[i], sample[i]);
      RoundTrip(sample[i].id);
    }
  }

  /**
   Following an SRV target: asking A or AAAA for the encoded name of a
   directory node with a well-formed id is answered from that node.
   */
  lemma TargetQueryFindsNode(n: Node, qtype: uint16, sampler: Sampler, nodes: map<string, Node>)
    requires |n.id| == IdLength && n.id[0] == '0' && '.' !in n.id
    requires n.id in nodes && nodes[n.id] == n
    ensures
      var q := Question(NodeName(n.id), qtype);
      HandleLightningDns(q, sampler, nodes).Some? &&
      PeerReply(HandleLightningDns(q, sampler, nodes).value, n, q.name, qtype)
  {
    var q := Question(NodeName(n.id), qtype);
    assert |q.name| != |ApexName|;
    RoundTrip(n.id);
  }
}
