/** The signed consensus proposal: `epoch`, `view` and `parent` as varints, then a
    fixed 32-byte payload digest. */
module Proposal {
  import opened Common
  import opened Merkle
  import opened Varint

  datatype DecodedProposal = DecodedProposal(epoch: nat, view: nat, parent: nat, payload: Hash)

  ghost predicate InRange(p: DecodedProposal) {
    p.epoch <= U64_MAX && p.view <= U64_MAX && p.parent <= U64_MAX
  }

  /** `encode_proposal`. */
  function EncodeProposal(p: DecodedProposal): Bytes {
    Encode(p.epoch) + (Encode(p.view) + (Encode(p.parent) + p.payload))
  }

  function Skip(b: Bytes, r: Read): Bytes
    requires r.consumed <= |b|
  {
    b[r.consumed..]
  }

  function DecodeProposal(b: Bytes): Option<DecodedProposal> {
    match Decode(b) case None => None case Some(epoch) =>
    var b1 := Skip(b, epoch);
    match Decode(b1) case None => None case Some(view) =>
    var b2 := Skip(b1, view);
    match Decode(b2) case None => None case Some(parent) =>
    var payload := Skip(b2, parent);
    if |payload| != 32 then None
    else Some(DecodedProposal(epoch.value, view.value, parent.value, payload))
  }

  /** `decode_proposal`: every failure is `InvalidProposal`. */
  method ParseProposal(bytes: Bytes) returns (r: Option<DecodedProposal>)
    ensures r == DecodeProposal(bytes)
  {
    var pos := 0;
    assert bytes[0..] == bytes;
    var epoch := ReadUvarint(bytes, pos);
    if epoch.None? { return None; }
    pos := pos + epoch.value.consumed;
    var view := ReadUvarint(bytes, pos);
    if view.None? { return None; }
    ghost var b2 := Skip(bytes[pos..], view.value);
    pos := pos + view.value.consumed;
    assert b2 == bytes[pos..];
    var parent := ReadUvarint(bytes, pos);
    if parent.None? { return None; }
    ghost var b3 := Skip(bytes[pos..], parent.value);
    pos := pos + parent.value.consumed;
    assert b3 == bytes[pos..];
    if pos + 32 > |bytes| {
      return None;
    }
    var payload := bytes[pos..pos + 32];
    if pos + 32 != |bytes| {
      return None;
    }
    assert payload == bytes[pos..];
    return Some(DecodedProposal(epoch.value.value, view.value.value, parent.value.value, payload));
  }

  lemma ReadFront(v: nat, rest: Bytes)
    requires v <= U64_MAX
    ensures var b := Encode(v) + rest;
            Decode(b) == Some(Read(v, |Encode(v)|)) && Skip(b, Decode(b).value) == rest
  {
    DecodeEncode(v, rest);
  }

  /** Decoding a proposal followed by `extra` bytes: accepted exactly when `extra` is empty. */
  lemma DecodeInvertsEncode(p: DecodedProposal, extra: Bytes)
    requires InRange(p)
    ensures DecodeProposal(EncodeProposal(p) + extra) == if extra == [] then Some(p) else None
  {
    var tail := p.payload + extra;
    var t2 := Encode(p.parent) + tail;
    var t1 := Encode(p.view) + t2;
    assert EncodeProposal(p) + extra == Encode(p.epoch) + t1;
    ReadFront(p.epoch, t1);
    ReadFront(p.view, t2);
    ReadFront(p.parent, tail);
    if extra == [] {
      assert tail == p.payload;
    }
  }

  /** A strict prefix of `Encode(v) + rest` either cuts the varint, which then does
      not read, or reads `v` and leaves a strict prefix of `rest`. */
  lemma CutFront(v: nat, rest: Bytes, n: nat)
    requires v <= U64_MAX && n < |Encode(v) + rest|
    ensures var b := (Encode(v) + rest)[..n]; var k := |Encode(v)|;
            if n < k then Decode(b) == None
            else Decode(b) == Some(Read(v, k)) && Skip(b, Decode(b).value) == rest[..n - k]
  {
    var b, k := (Encode(v) + rest)[..n], |Encode(v)|;
    if n < k {
      assert b == Encode(v)[..n];
      DecodeCut(v, n, 0);
    } else {
      assert b == Encode(v) + rest[..n - k];
      ReadFront(v, rest[..n - k]);
    }
  }

  /** Every strict prefix of an encoded proposal is rejected. */
  lemma DecodeRejectsPrefixes(p: DecodedProposal, n: nat)
    requires InRange(p) && n < |EncodeProposal(p)|
    ensures DecodeProposal(EncodeProposal(p)[..n]) == None
  {
    var t2 := Encode(p.parent) + p.payload;
    var t1 := Encode(p.view) + t2;
    CutFront(p.epoch, t1, n);
    if n >= |Encode(p.epoch)| {
      var n1 := n - |Encode(p.epoch)|;
      CutFront(p.view, t2, n1);
      if n1 >= |Encode(p.view)| {
        CutFront(p.parent, p.payload, n1 - |Encode(p.view)|);
      }
    }
  }

  // ----- what is signed -----

  /** `union_unique`: the length-prefixed namespace, then the message. */
  function UnionUnique(namespace: Bytes, msg: Bytes): Bytes {
    Encode(|namespace|) + (namespace + msg)
  }

  /** The signed bytes determine both the namespace and the message. */
  lemma UnionUniqueInjective(ns: Bytes, msg: Bytes, ns': Bytes, msg': Bytes)
    requires |ns| <= U64_MAX && |ns'| <= U64_MAX
    requires UnionUnique(ns, msg) == UnionUnique(ns', msg')
    ensures ns == ns' && msg == msg'
  {
    ReadFront(|ns|, ns + msg);
    ReadFront(|ns'|, ns' + msg');
    assert (ns + msg)[..|ns|] == ns && (ns' + msg')[..|ns'|] == ns';
    assert (ns + msg)[|ns|..] == msg && (ns' + msg')[|ns'|..] == msg';
  }
}
