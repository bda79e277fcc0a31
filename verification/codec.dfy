/**
 The node-id codec of seed/dns.go. A node id is a compressed public key
 written as 66 hex characters. That is longer than one DNS label may be
 (63 octets, section 2.3.4 of RFC 1035), so the responder drops the
 leading character and spreads the other 65 over two labels in front of
 the apex domain; the decoder puts a '0' back in front.
 */
module NodeIdCodec {
  import opened Wrappers
  import opened GoStrings

  /** The apex domain every discovery query is issued under. */
  const ApexName: string := "lseed.bitcoinstats.com."
  /** Section 2.3.4 of RFC 1035. */
  const MaxLabelLength: nat := 63
  /** Length of a node id, and of the two labels that carry all but its first character. */
  const IdLength: nat := 66
  const LabelsLength: nat := 65

  /**
   The target name of a node (seed/dns.go:87): `Id[1:64] . Id[64:] . <apex>`.
   For a dot-free id of 66 characters the name splits into a first label of
   exactly the maximal label length, the two remaining characters, and the apex.
   */
  function NodeName(id: string): (name: string)
    requires |id| >= 64
    ensures |id| == IdLength && '.' !in id ==>
      SplitN(name, '.', 3) == [id[1..64], id[64..], ApexName] && |id[1..64]| == MaxLabelLength
  {
    var name := id[1..64] + "." + id[64..] + "." + ApexName;
    if '.' in id then name
    else
      DotFreeSlice(id, 1, 64);
      DotFreeSlice(id, 64, |id|);
      assert id[64..] == id[64..|id|];
      SplitPeerName(id[1..64], id[64..], ApexName);
      name
  }

  /**
   The decoder of the per-peer branch (seed/dns.go:131-136). A name is
   accepted when it splits into three parts whose first two have 65
   characters together; neither the labels' alphabet nor the third part
   is looked at.
   */
  function DecodeNodeName(name: string): (id: Option<string>)
    ensures id.Some? ==> |id.value| == IdLength && id.value[0] == '0'
  {
    var splits := SplitN(name, '.', 3);
    if |splits| != 3 || |splits[0]| + |splits[1]| != LabelsLength then None
    else Some("0" + splits[0] + splits[1])
  }

  /** The name with labels `p0`, `p1` in front of the remainder `rest`. */
  function PeerName(p0: string, p1: string, rest: string): string
  {
    p0 + "." + p1 + "." + rest
  }

  /** Two dot-free labels in front of anything split into exactly those three parts. */
  lemma SplitPeerName(p0: string, p1: string, rest: string)
    requires '.' !in p0 && '.' !in p1
    ensures SplitN(PeerName(p0, p1, rest), '.', 3) == [p0, p1, rest]
  {
    assert PeerName(p0, p1, rest) == p0 + ['.'] + (p1 + ['.'] + rest);
    SplitNFirst(p0, p1 + ['.'] + rest, '.', 3);
    SplitNFirst(p1, rest, '.', 2);
  }

  /**
   Every name made of two dot-free labels of 65 characters in total, in
   front of any remainder, is accepted and decodes to '0' followed by the
   two labels.
   */
  lemma DecodeAccepts(p0: string, p1: string, rest: string)
    requires '.' !in p0 && '.' !in p1
    requires |p0| + |p1| == LabelsLength
    ensures DecodeNodeName(PeerName(p0, p1, rest)) == Some("0" + p0 + p1)
  {
    SplitPeerName(p0, p1, rest);
  }

  /**
   Conversely, an accepted name has exactly that form, and the decoded id
   is '0' followed by its two labels.
   */
  lemma DecodeOnlyAccepts(name: string) returns (p0: string, p1: string, rest: string)
    requires DecodeNodeName(name).Some?
    ensures '.' !in p0 && '.' !in p1
    ensures |p0| + |p1| == LabelsLength
    ensures name == PeerName(p0, p1, rest)
    ensures DecodeNodeName(name) == Some("0" + p0 + p1)
  {
    var splits := SplitN(name, '.', 3);
    p0, p1, rest := splits[0], splits[1], splits[2];
    assert splits[1..][1..] == [rest];
    assert Join(splits[1..], '.') == p1 + ['.'] + rest;
    assert name == p0 + ['.'] + (p1 + ['.'] + rest);
  }

  /**
   The decoded id depends only on the concatenation of the first two
   labels: where the split falls and what follows them do not matter.
   */
  lemma DecodeDependsOnlyOnLabels(p0: string, p1: string, rest: string, q0: string, q1: string, rest': string)
    requires '.' !in p0 && '.' !in p1 && '.' !in q0 && '.' !in q1
    requires p0 + p1 == q0 + q1
    requires |p0| + |p1| == LabelsLength
    ensures DecodeNodeName(PeerName(p0, p1, rest)) == DecodeNodeName(PeerName(q0, q1, rest'))
    ensures DecodeNodeName(PeerName(p0, p1, rest)).Some?
  {
    assert "0" + p0 + p1 == "0" + q0 + q1 by {
      assert "0" + p0 + p1 == "0" + (p0 + p1);
      assert "0" + q0 + q1 == "0" + (q0 + q1);
    }
    assert |q0| + |q1| == |q0 + q1|;
    DecodeAccepts(p0, p1, rest);
    DecodeAccepts(q0, q1, rest');
  }

  /** A slice of a dot-free string is dot-free. */
  lemma DotFreeSlice(s: string, lo: nat, hi: nat)
    requires '.' !in s && lo <= hi <= |s|
    ensures '.' !in s[lo..hi]
  {
    forall k | 0 <= k < hi - lo ensures s[lo..hi][k] != '.' {
      assert s[lo..hi][k] == s[lo + k];
    }
  }

  /** The name of a dot-free id is two dot-free labels in front of the apex. */
  lemma NodeNameLabels(id: string)
    requires |id| >= 64 && '.' !in id
    ensures NodeName(id) == PeerName(id[1..64], id[64..], ApexName)
    ensures '.' !in id[1..64] && '.' !in id[64..]
    ensures id[1..64] + id[64..] == id[1..]
  {
    DotFreeSlice(id, 1, 64);
    DotFreeSlice(id, 64, |id|);
    assert id[64..] == id[64..|id|];
  }

  /**
   The name of a 66-character dot-free id splits into a first label of
   exactly the maximal label length, a second label of two characters and
   the apex domain.
   */
  lemma EncodeSplits(id: string)
    requires |id| == IdLength && '.' !in id
    ensures SplitN(NodeName(id), '.', 3) == [id[1..64], id[64..], ApexName]
    ensures |id[1..64]| == MaxLabelLength && |id[64..]| == 2
  {
    NodeNameLabels(id);
    SplitPeerName(id[1..64], id[64..], ApexName);
  }

  /** Encoding then decoding replaces the first character of the id by '0'. */
  lemma EncodeDecode(id: string)
    requires |id| == IdLength && '.' !in id
    ensures DecodeNodeName(NodeName(id)) == Some("0" + id[1..])
  {
    NodeNameLabels(id);
    DecodeAccepts(id[1..64], id[64..], ApexName);
    assert "0" + id[1..64] + id[64..] == "0" + (id[1..64] + id[64..]);
  }

  /** The round trip: an id of 66 characters that starts with '0' is decoded back to itself. */
  lemma RoundTrip(id: string)
    requires |id| == IdLength && id[0] == '0' && '.' !in id
    ensures DecodeNodeName(NodeName(id)) == Some(id)
  {
    EncodeDecode(id);
    assert id == [id[0]] + id[1..];
  }

  /** The name of a dot-free id of any other length is rejected. */
  lemma EncodeOtherLengthRejected(id: string)
    requires |id| >= 64 && |id| != IdLength && '.' !in id
    ensures DecodeNodeName(NodeName(id)) == None
  {
    NodeNameLabels(id);
    SplitPeerName(id[1..64], id[64..], ApexName);
  }
}
