/** `BlockPayload` and its bincode layout: little-endian `u64`s, length-prefixed
    byte strings, fixed arrays raw, fields in declaration order. */
module Block {
  import opened Common
  import opened Merkle

  type u64 = n: int | 0 <= n <= U64_MAX

  datatype BlockPayload = BlockPayload(
    height: u64,
    timestampNanos: u64,
    proposer: Bytes,
    txs: seq<Bytes>,
    parentDigest: Hash,
    stateRoot: Hash)

  /** Lengths that a 64-bit process can hold. */
  ghost predicate InMemory(p: BlockPayload) {
    && |p.proposer| <= U64_MAX
    && |p.txs| <= U64_MAX
    && forall tx <- p.txs :: |tx| <= U64_MAX
  }

  // ----- little-endian integers -----

  function Pow256(w: nat): nat {
    if w == 0 then 1 else 256 * Pow256(w - 1)
  }

  function LittleEndian(n: nat, w: nat): (b: Bytes)
    ensures |b| == w
  {
    if w == 0 then [] else [(n % 256) as byte] + LittleEndian(n / 256, w - 1)
  }

  function FromLittleEndian(b: Bytes): nat {
    if b == [] then 0 else b[0] as nat + 256 * FromLittleEndian(b[1..])
  }

  lemma {:induction false} LittleEndianRoundTrip(n: nat, w: nat)
    requires n < Pow256(w)
    ensures FromLittleEndian(LittleEndian(n, w)) == n
    decreases w
  {
    if w > 0 {
      LittleEndianRoundTrip(n / 256, w - 1);
      assert LittleEndian(n, w)[1..] == LittleEndian(n / 256, w - 1);
    }
  }

  lemma Pow256Of8()
    ensures Pow256(8) == U64_MAX + 1
  {
    assert Pow256(4) == 0x1_0000_0000;
  }

  // ----- encoding -----

  function EncodeU64(n: nat): Bytes {
    LittleEndian(n, 8)
  }

  function EncodeVec(b: Bytes): Bytes {
    EncodeU64(|b|) + b
  }

  function EncodeVecs(bs: seq<Bytes>): Bytes {
    if bs == [] then [] else EncodeVec(bs[0]) + EncodeVecs(bs[1..])
  }

  /** `to_bytes`. */
  function ToBytes(p: BlockPayload): Bytes {
    EncodeU64(p.height) + (EncodeU64(p.timestampNanos) + (EncodeVec(p.proposer) +
    (EncodeU64(|p.txs|) + (EncodeVecs(p.txs) + (p.parentDigest + p.stateRoot)))))
  }

  /** `digest`. */
  function Digest(H: Hasher, p: BlockPayload): Hash {
    H(ToBytes(p))
  }

  // ----- decoding -----

  datatype Parsed<+T> = Parsed(value: T, rest: Bytes)

  function ReadU64(b: Bytes): Option<Parsed<u64>> {
    if |b| < 8 then None
    else
      FromLittleEndianBound(b[..8]);
      Pow256Of8();
      Some(Parsed(FromLittleEndian(b[..8]), b[8..]))
  }

  lemma {:induction false} FromLittleEndianBound(b: Bytes)
    ensures FromLittleEndian(b) < Pow256(|b|)
  {
    if b != [] {
      FromLittleEndianBound(b[1..]);
    }
  }

  function ReadFixed(b: Bytes, n: nat): Option<Parsed<Bytes>> {
    if |b| < n then None else Some(Parsed(b[..n], b[n..]))
  }

  function ReadVec(b: Bytes): Option<Parsed<Bytes>> {
    match ReadU64(b)
    case None => None
    case Some(n) => ReadFixed(n.rest, n.value)
  }

  function ReadVecs(b: Bytes, count: nat): Option<Parsed<seq<Bytes>>> {
    if count == 0 then Some(Parsed([], b))
    else
      match ReadVec(b)
      case None => None
      case Some(first) =>
        match ReadVecs(first.rest, count - 1)
        case None => None
        case Some(more) => Some(Parsed([first.value] + more.value, more.rest))
  }

  datatype Head = Head(height: u64, timestampNanos: u64, proposer: Bytes)

  function ReadHead(b: Bytes): Option<Parsed<Head>> {
    match ReadU64(b) case None => None case Some(height) =>
    match ReadU64(height.rest) case None => None case Some(time) =>
    match ReadVec(time.rest) case None => None case Some(proposer) =>
    Some(Parsed(Head(height.value, time.value, proposer.value), proposer.rest))
  }

  function ReadTxs(b: Bytes): Option<Parsed<seq<Bytes>>> {
    match ReadU64(b) case None => None case Some(count) => ReadVecs(count.rest, count.value)
  }

  /** `from_bytes`. Like `bincode::deserialize`, trailing bytes are ignored. */
  function FromBytes(b: Bytes): Option<BlockPayload> {
    match ReadHead(b) case None => None case Some(head) =>
    match ReadTxs(head.rest) case None => None case Some(txs) =>
    match ReadFixed(txs.rest, 32) case None => None case Some(parent) =>
    match ReadFixed(parent.rest, 32) case None => None case Some(root) =>
    Some(BlockPayload(head.value.height, head.value.timestampNanos, head.value.proposer,
                      txs.value, parent.value, root.value))
  }

  // ----- round trips -----

  lemma ReadU64Inverts(n: u64, rest: Bytes)
    ensures ReadU64(EncodeU64(n) + rest) == Some(Parsed(n, rest))
  {
    var b := EncodeU64(n) + rest;
    assert b[..8] == EncodeU64(n) && b[8..] == rest;
    Pow256Of8();
    LittleEndianRoundTrip(n, 8);
  }

  lemma ReadVecInverts(v: Bytes, rest: Bytes)
    requires |v| <= U64_MAX
    ensures ReadVec(EncodeVec(v) + rest) == Some(Parsed(v, rest))
  {
    assert EncodeVec(v) + rest == EncodeU64(|v|) + (v + rest);
    ReadU64Inverts(|v|, v + rest);
    assert (v + rest)[..|v|] == v && (v + rest)[|v|..] == rest;
  }

  lemma ReadVecsStep(b: Bytes, head: Bytes, tail: Bytes, n: nat, more: Parsed<seq<Bytes>>)
    requires ReadVec(b) == Some(Parsed(head, tail)) && ReadVecs(tail, n) == Some(more)
    ensures ReadVecs(b, n + 1) == Some(Parsed([head] + more.value, more.rest))
  {
  }

  lemma EncodeVecsSplit(vs: seq<Bytes>, rest: Bytes)
    requires vs != []
    ensures EncodeVecs(vs) + rest == EncodeVec(vs[0]) + (EncodeVecs(vs[1..]) + rest)
  {
    hide EncodeVec;
  }

  lemma {:induction false} ReadVecsInverts(vs: seq<Bytes>, rest: Bytes)
    requires forall v <- vs :: |v| <= U64_MAX
    ensures ReadVecs(EncodeVecs(vs) + rest, |vs|) == Some(Parsed(vs, rest))
    decreases |vs|
  {
    hide *;
    if vs == [] {
      ReadNoVecs(rest);
    } else {
      var head, tail := vs[0], EncodeVecs(vs[1..]) + rest;
      ReadVecInverts(head, tail);
      ReadVecsInverts(vs[1..], rest);
      ReadVecsStep(EncodeVec(head) + tail, head, tail, |vs| - 1, Parsed(vs[1..], rest));
      EncodeVecsSplit(vs, rest);
      assert [head] + vs[1..] == vs;
    }
  }

  lemma ReadNoVecs(rest: Bytes)
    ensures ReadVecs(EncodeVecs([]) + rest, 0) == Some(Parsed([], rest))
  {
    assert EncodeVecs([]) + rest == rest;
  }

  lemma ReadHeadInverts(p: BlockPayload, rest: Bytes)
    requires InMemory(p)
    ensures ReadHead(EncodeU64(p.height) + (EncodeU64(p.timestampNanos) + (EncodeVec(p.proposer) + rest))) ==
            Some(Parsed(Head(p.height, p.timestampNanos, p.proposer), rest))
  {
    var t2 := EncodeVec(p.proposer) + rest;
    ReadU64Inverts(p.height, EncodeU64(p.timestampNanos) + t2);
    ReadU64Inverts(p.timestampNanos, t2);
    ReadVecInverts(p.proposer, rest);
  }

  lemma ReadTxsInverts(txs: seq<Bytes>, rest: Bytes)
    requires |txs| <= U64_MAX && forall tx <- txs :: |tx| <= U64_MAX
    ensures ReadTxs(EncodeU64(|txs|) + (EncodeVecs(txs) + rest)) == Some(Parsed(txs, rest))
  {
    ReadU64Inverts(|txs|, EncodeVecs(txs) + rest);
    ReadVecsInverts(txs, rest);
  }

  lemma ReadFixedInverts(v: Bytes, rest: Bytes)
    ensures ReadFixed(v + rest, |v|) == Some(Parsed(v, rest))
  {
    assert (v + rest)[..|v|] == v && (v + rest)[|v|..] == rest;
  }

  /** Decoding inverts encoding, whatever follows. */
  lemma PayloadRoundTrip(p: BlockPayload, trailing: Bytes)
    requires InMemory(p)
    ensures FromBytes(ToBytes(p) + trailing) == Some(p)
  {
    var t2 := p.parentDigest + (p.stateRoot + trailing);
    var t1 := EncodeU64(|p.txs|) + (EncodeVecs(p.txs) + t2);
    assert ToBytes(p) + trailing ==
           EncodeU64(p.height) + (EncodeU64(p.timestampNanos) + (EncodeVec(p.proposer) + t1));
    ReadHeadInverts(p, t1);
    ReadTxsInverts(p.txs, t2);
    ReadFixedInverts(p.parentDigest, p.stateRoot + trailing);
    ReadFixedInverts(p.stateRoot, trailing);
  }

  /** The bytes determine the payload, so a digest clash of two payloads is a collision. */
  lemma PayloadInjective(p: BlockPayload, q: BlockPayload)
    requires InMemory(p) && InMemory(q) && ToBytes(p) == ToBytes(q)
    ensures p == q
  {
    PayloadRoundTrip(p, []);
    PayloadRoundTrip(q, []);
    assert ToBytes(p) + [] == ToBytes(q) + [];
  }

  /** The trailing 32 bytes of every encoded payload are its `state_root`. */
  lemma StateRootIsLast(p: BlockPayload)
    ensures |ToBytes(p)| >= 32
    ensures ToBytes(p)[|ToBytes(p)| - 32..] == p.stateRoot
  {
    var front := EncodeU64(p.height) + (EncodeU64(p.timestampNanos) + (EncodeVec(p.proposer) +
      (EncodeU64(|p.txs|) + (EncodeVecs(p.txs) + p.parentDigest))));
    assert ToBytes(p) == front + p.stateRoot;
  }
}
