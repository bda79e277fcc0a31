# lseed DNS seed responder — Dafny model

A model of the record-building and dispatch logic of the lseed DNS seed (`seed/dns.go`),
which lets Lightning nodes discover peers over DNS. Clients ask the apex
domain `lseed.bitcoinstats.com.` for A, AAAA or SRV records, or ask a
per-peer name `<label1>.<label2>.lseed.bitcoinstats.com.` derived from a
node id. The responder turns directory nodes into resource records.

Modules:

- `Records` (records.dfy): nodes, record headers, A/AAAA/SRV records and the
  Answer/Additional sections of a reply. Also the builders `addAResponse`
  and `addAAAAResponse`, and the record shape every emitted record has
  (`WellShaped`: class IN, TTL 60, priority and weight 10 for SRV).
- `GoStrings` (gostrings.dfy): Go's `strings.Index` and `strings.SplitN` for a
  one-character separator, with `Join` as the inverse that characterises
  `SplitN`.
- `NodeIdCodec` (codec.dfy): the encoding of a 66-character id into two labels
  under the apex (line 87) and the decoder of the per-peer branch
  (lines 131-136). It includes the round trip and an exact description of
  which names are accepted.
- `Dispatcher` (dispatcher.dfy): the three apex handlers, the per-peer
  section placement, and `handleLightningDns` as a pure function. It takes
  the question, the directory's sampler and its node map, and returns
  `None` when no reply is written and `Some(reply)` otherwise.
- `ReplyProperties` (properties.dfy): whole-reply properties across branches
  and across the codec.

The directory's `RandomSample(count, pool)` is a parameter
`sampler: (nat, nat) -> seq<Node>`. It stands for whatever the directory
returns on this call, so the contracts name the call arguments (3, 25),
(2, 25) and (255, 25) without bounding the result. The map `nodes` is a
`map<string, Node>`. A miss yields Go's zero `Node`.

Behaviour of the code that a reader might not expect, kept by the model:

- A name that fails the decoder returns before `w.WriteMsg` (line 134), so no
  reply is written at all (`None`), not an empty reply.
- A lookup miss (line 137) does not return. The zero node (type 0, no
  address) still produces a record: an A question gets an empty A record in
  Answer, and an AAAA question gets an empty AAAA record in Additional.
- The apex A/AAAA handlers do not filter the sample by address family.
- The SRV owner is `_lightning._tcp.bitcoinstats.com.`, outside the apex.
- The decoder does not check that the third part is the apex, nor that the
  labels are hex. Any split of 65 characters over the first two labels is
  accepted.
- The address record type follows the question (or, for SRV, bit 0 of the
  node's `Type`); the length of the address bytes plays no part.

## Model

| member | source | states |
|---|---|---|
| `Records.AddAResponse` | seed/dns.go:28-40 | exactly one record is appended and earlier entries are unchanged; it is an A record owned by the given name, class IN, TTL 60, data = the node's IP |
| `Records.AddAAAAResponse` | seed/dns.go:42-54 | exactly one record is appended and earlier entries are unchanged; it is an AAAA record owned by the given name, class IN, TTL 60, data = the node's IP |
| `GoStrings.SplitN` | seed/dns.go:131 | `strings.SplitN(name, ".", 3)`: at most n parts, at least one; the parts joined by the separator give back the input; only the last part may contain the separator, and only when the limit n was reached |
| `NodeIdCodec.NodeName` | seed/dns.go:87 | for a dot-free id of 66 characters, the target name splits into exactly three parts: `id[1..64]`, a first label of exactly 63 characters (the RFC 1035 label limit, with the leading id character dropped), then `id[64..]`, then the apex |
| `NodeIdCodec.DecodeNodeName` | seed/dns.go:131-136 | a decoded id always has 66 characters and starts with '0' |
| `NodeIdCodec.DecodeAccepts` | seed/dns.go:131-136 | every name `p0.p1.rest` with dot-free labels of 65 characters in total is accepted and decodes to `"0" + p0 + p1`, whatever `rest` is |
| `NodeIdCodec.DecodeOnlyAccepts` | seed/dns.go:131-136 | conversely, every accepted name is `p0.p1.rest` with dot-free labels of 65 characters in total, and decodes to `"0" + p0 + p1` |
| `NodeIdCodec.DecodeDependsOnlyOnLabels` | seed/dns.go:132-136 | two accepted names whose first two labels have the same concatenation decode to the same id, regardless of split point and suffix |
| `NodeIdCodec.EncodeSplits` | seed/dns.go:87 | the name of a 66-character dot-free id splits into three parts: the first label of exactly 63 characters (the RFC 1035 label limit), a 2-character second label, and the apex |
| `NodeIdCodec.EncodeDecode` | seed/dns.go:131-136 | decoding the line-87 name of a 66-character dot-free id gives the id with its first character replaced by '0' |
| `NodeIdCodec.RoundTrip` | seed/dns.go:131-136 | decoding the line-87 name of a 66-character dot-free id that starts with '0' gives the id back |
| `NodeIdCodec.EncodeOtherLengthRejected` | seed/dns.go:131-136 | the line-87 name of a dot-free id of any other length (at least 64) is rejected by the decoder |
| `Dispatcher.Lookup` | seed/dns.go:137 | a present id yields the directory's node; a missing id yields Go's zero node, which has type 0, no address, and the IPv4 family |
| `Dispatcher.FamilyType` | seed/dns.go:97-101 | the address record type is AAAA exactly when bit 0 of the node's Type is set, and A otherwise |
| `Dispatcher.AppendAddresses` | seed/dns.go:56-69 | the A/AAAA handler loop appends one record per sampled node, in sample order, each of the requested type, owned by the queried name, carrying that node's IP; earlier records are unchanged |
| `Dispatcher.HandleAAAAQuery` | seed/dns.go:56-61 | Answer gains one AAAA record per node of the (3, 25) sample, in order, owned by the queried name; Additional is untouched |
| `Dispatcher.HandleAQuery` | seed/dns.go:63-69 | Answer gains one A record per node of the (2, 25) sample, in order, owned by the queried name; Additional is untouched |
| `Dispatcher.SrvIteration` | seed/dns.go:87-101 | one loop iteration appends exactly one entry to each section and leaves earlier entries unchanged: to Answer, an SRV record (owner `_lightning._tcp.bitcoinstats.com.`, priority 10, weight 10, the node's port, target = the node's encoded name); to Additional, an address record owned by that target, AAAA when bit 0 of Type is set and A otherwise |
| `Dispatcher.AppendSrv` | seed/dns.go:86-102 | the SRV loop adds one such pair per sampled node, in sample order, at the same index in both sections, and leaves earlier entries unchanged |
| `Dispatcher.HandleSRVQuery` | seed/dns.go:76-104 | Answer and Additional each gain exactly one entry per node of the (255, 25) sample, paired as above |
| `Dispatcher.PeerResponse` | seed/dns.go:144-157 | for A/AAAA exactly one record of the queried type is added: to Answer when the node's family bit matches the type, to Additional otherwise; any other type adds nothing |
| `Dispatcher.HandleLightningDns` | seed/dns.go:106-160 | no reply exactly when the name is not the apex and fails the decoder; apex A/AAAA gives one record per sampled node with Additional empty; apex SRV gives the paired SRV/address sections; any other apex type gives an empty reply; an accepted peer name gives the per-peer reply for the looked-up node (the zero node on a miss) |
| `ReplyProperties.RepliesWellShaped` | seed/dns.go:106-160 | every record in a written reply has class IN, TTL 60 and a header type matching its kind (SRV with priority and weight 10); every Answer record has the queried type |
| `ReplyProperties.PeerQueryAtMostOneRecord` | seed/dns.go:144-157 | a per-peer reply holds at most one record across both sections, and holds one exactly when the question is A or AAAA |
| `ReplyProperties.LookupMissUsesZeroNode` | seed/dns.go:137-157 | on a lookup miss an A question gets one A record with empty data in Answer, and an AAAA question gets one AAAA record with empty data in Additional |
| `ReplyProperties.MalformedNameNoReply` | seed/dns.go:131-135 | a non-apex name with no split into two dot-free labels of 65 characters in total gets no reply at all |
| `ReplyProperties.SrvTargetsDecodeToIds` | seed/dns.go:86-101 | for ids of 66 characters starting with '0', the i-th Additional record is owned by the i-th SRV target, and that target decodes to the i-th sampled node's id |
| `ReplyProperties.TargetQueryFindsNode` | seed/dns.go:131-157 | an A/AAAA question for the encoded name of a directory node with a well-formed id gets the per-peer reply built from that node |

## Left out

- `Serve` (lines 162-168): UDP socket binding, handler registration and `ListenAndServe` are transport.
- `NewDnsServer` (lines 22-26): only stores the directory, which the model passes as parameters.
- DNS wire format and `m.SetReply(r)` (line 117) belong to the DNS library. The reply is the abstract pair of Answer and Additional sections; its header and copied question are not modelled.
- `RandomSample`: the directory's sampling and its randomness are not part of this model. The sample is an arbitrary sequence per call, so the bounds 2, 3 and 255 on its length are not asserted.
- Logging calls (lines 111-114, 133, 139, 141, 166): side effects only.
- Concurrent handling of queries: the handler holds no shared mutable state of its own, and the model is a pure function.
- IP parsing: a node's address is opaque bytes. Only bit 0 of `Type` is used, read from a `nat`.
- `Dispatcher.HandleLightningDns`: requires every node of the SRV sample to have an id of at least 64 characters. Line 87 slices `Id[1:64]`, and Go panics on a shorter id, so there is no reply to model for that case.
- `Dispatcher.HandleSRVQuery`: requires the same of its (255, 25) sample, for the same reason.
- `Dispatcher.AppendSrv`: requires the same of the nodes it iterates over, for the same reason.
- `Dispatcher.SrvIteration`: requires its node's id to have at least 64 characters, for the same reason.
- `NodeIdCodec.NodeName`: requires an id of at least 64 characters, since line 87's slices panic on a shorter one.
- `NodeIdCodec.RoundTrip`: requires the id to contain no '.'. A hex id never does, and the decoder itself checks neither the alphabet nor the apex.
