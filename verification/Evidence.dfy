/** What a misbehaviour submission proves about the holders of the key's shares, who are to
    cast at most one finalize vote a round. */
module Evidence {
  import opened Common
  import opened Merkle
  import opened Proposal
  import opened WasmStore
  import opened LightClient
  import Hex

  /** A share's finalize vote, on the bytes of a proposal. */
  datatype Vote = Vote(share: nat, proposal: Bytes)

  /** How many of `n` shares may be at fault. */
  function Faults(n: nat): nat {
    if n == 0 then 0 else (n - 1) / 3
  }

  function Voters(votes: set<Vote>, n: nat, proposal: Bytes): set<nat> {
    set i | 0 <= i < n && Vote(i, proposal) in votes
  }

  /** A quorum of the shares voted for the proposal. */
  predicate Backed(votes: set<Vote>, n: nat, proposal: Bytes) {
    |Voters(votes, n, proposal)| >= n - Faults(n)
  }

  /** Different payloads proposed in one round. */
  predicate Clash(x: Bytes, y: Bytes) {
    var p, q := DecodeProposal(x), DecodeProposal(y);
    && p.Some? && q.Some? && p.value.epoch == q.value.epoch && p.value.view == q.value.view
    && p.value.payload != q.value.payload
  }

  ghost predicate Equivocates(votes: set<Vote>, i: nat) {
    exists x, y :: Vote(i, x) in votes && Vote(i, y) in votes && Clash(x, y)
  }

  ghost function Equivocators(votes: set<Vote>, n: nat): set<nat> {
    set i | 0 <= i < n && Equivocates(votes, i)
  }

  /** A certificate verifies only for a proposal that a quorum voted for. */
  ghost predicate Unforgeable(c: Crypto, keyHex: Bytes, votes: set<Vote>, n: nat) {
    forall header :: VerifyHeader(c, keyHex, header).Ok? ==> Backed(votes, n, header.proposalBytes)
  }

  // ----- quorums intersect -----

  function Shares(n: nat): (r: set<nat>)
    ensures |r| == n && (forall i: nat :: i in r <==> i < n)
  {
    if n == 0 then {} else Shares(n - 1) + {n - 1}
  }

  lemma {:induction false} SubsetCount(a: set<nat>, b: set<nat>)
    requires a <= b
    ensures |a| <= |b|
    decreases |a|
  {
    if x :| x in a {
      SubsetCount(a - {x}, b - {x});
    }
  }

  lemma QuorumsShare(a: set<nat>, b: set<nat>, n: nat)
    requires n > 0 && a <= Shares(n) && b <= Shares(n) && |a| >= n - Faults(n) && |b| >= n - Faults(n)
    ensures |a * b| > Faults(n)
  {
    SubsetCount(a + b, Shares(n));
    assert |a + b| == |a| + |b| - |a * b|;
  }

  lemma ConflictClashes(c: Crypto, keyHex: Bytes, a: Header, b: Header)
    requires Conflicting(c, keyHex, a, b)
    ensures Clash(a.proposalBytes, b.proposalBytes) <==> SameRound(c, keyHex, a, b)
  {
    hide DecodeProposal, Hex.Decode;
  }

  /** Two proposals of one round that both reached a quorum convict more shares than may
      be at fault. */
  lemma ClashConvicts(votes: set<Vote>, n: nat, x: Bytes, y: Bytes)
    requires n > 0 && Backed(votes, n, x) && Backed(votes, n, y) && Clash(x, y)
    ensures |Equivocators(votes, n)| > Faults(n)
  {
    hide Clash;
    var a, b := Voters(votes, n, x), Voters(votes, n, y);
    QuorumsShare(a, b, n);
    forall i <- a * b
      ensures i in Equivocators(votes, n)
    {
      assert Equivocates(votes, i);
    }
    SubsetCount(a * b, Equivocators(votes, n));
  }

  /** Everyone votes for both. */
  function BothVoted(n: nat, x: Bytes, y: Bytes): set<Vote> {
    (set i | 0 <= i < n :: Vote(i, x)) + (set i | 0 <= i < n :: Vote(i, y))
  }

  lemma BothBacked(n: nat, x: Bytes, y: Bytes)
    ensures Backed(BothVoted(n, x, y), n, x) && Backed(BothVoted(n, x, y), n, y)
  {
    var votes := BothVoted(n, x, y);
    assert Voters(votes, n, x) == Shares(n) && Voters(votes, n, y) == Shares(n);
  }

  lemma NobodyEquivocates(n: nat, x: Bytes, y: Bytes)
    requires !Clash(x, y)
    ensures Equivocators(BothVoted(n, x, y), n) == {}
  {
    hide DecodeProposal;
    forall i, v, w | Vote(i, v) in BothVoted(n, x, y) && Vote(i, w) in BothVoted(n, x, y)
      ensures !Clash(v, w)
    {
      assert v in {x, y} && w in {x, y};
    }
  }

  /** Two conflicting certificates are evidence, that is, whoever cast the votes behind
      them, more shares than may be at fault voted twice in one round, iff the rounds
      they sign are equal. Heights do not come into it. */
  lemma EvidenceIffSameRound(c: Crypto, keyHex: Bytes, a: Header, b: Header, n: nat)
    requires n > 0 && Conflicting(c, keyHex, a, b)
    ensures (forall votes ::
               Backed(votes, n, a.proposalBytes) && Backed(votes, n, b.proposalBytes) ==>
                 |Equivocators(votes, n)| > Faults(n)) <==>
            SameRound(c, keyHex, a, b)
  {
    hide Conflicting, SameRound, Clash, Equivocators, Backed, BothVoted;
    var x, y := a.proposalBytes, b.proposalBytes;
    ConflictClashes(c, keyHex, a, b);
    if SameRound(c, keyHex, a, b) {
      forall votes | Backed(votes, n, x) && Backed(votes, n, y)
        ensures |Equivocators(votes, n)| > Faults(n)
      {
        ClashConvicts(votes, n, x, y);
      }
    } else {
      BothBacked(n, x, y);
      NobodyEquivocates(n, x, y);
      var votes := BothVoted(n, x, y);
      assert |Equivocators(votes, n)| == 0;
    }
  }

  /** With unforgeable certificates, then, a client that froze on one round convicts. */
  lemma FrozenOnOneRoundConvicts(c: Crypto, H: Hasher, store: Store, a: Header, b: Header, votes: set<Vote>, n: nat)
    requires Inv(store) && store.client.value.0.frozenHeight.None? && n > 0
    requires Unforgeable(c, store.client.value.0.groupPublicKeyHex, votes, n)
    requires Freezes(c, H, store, a, b) && SameRound(c, store.client.value.0.groupPublicKeyHex, a, b)
    ensures |Equivocators(votes, n)| > Faults(n)
  {
    hide Freezes, Clash, Equivocators, Backed;
    var keyHex := store.client.value.0.groupPublicKeyHex;
    FreezesIff(c, H, store, a, b);
    ConflictClashes(c, keyHex, a, b);
    ClashConvicts(votes, n, a.proposalBytes, b.proposalBytes);
  }

  // ----- a client frozen by honest rounds -----

  /** Certificates verify for two proposals, and for nothing else. */
  function CryptoOf(x: Bytes, y: Bytes): Crypto {
    Crypto(_ => true, _ => true,
           (pk, msg, cert) => msg == UnionUnique(FINALIZE_NAMESPACE, x) || msg == UnionUnique(FINALIZE_NAMESPACE, y))
  }

  const KEY: Bytes := Hex.Encode(Repeat(1, 96))

  /** A proposal of view `view`, with that number all over its payload. */
  function ProposalIn(view: nat): Bytes
    requires view < 256
  {
    EncodeProposal(DecodedProposal(0, view, 0, Repeat(view as byte, 32)))
  }

  function HeaderFor(view: nat): Header
    requires view < 256
  {
    Header(Height(0, 7), 0, ProposalIn(view), Repeat(0, 48))
  }

  const FRESH_STATE := ClientState([], KEY, Height(0, 1), None)
  const FRESH_CONSENSUS := ConsensusState([], 0, 0, 0, 0)

  lemma ProposalReads(view: nat)
    requires view < 256
    ensures DecodeProposal(ProposalIn(view)) == Some(DecodedProposal(0, view, 0, Repeat(view as byte, 32)))
  {
    var p := DecodedProposal(0, view, 0, Repeat(view as byte, 32));
    DecodeInvertsEncode(p, []);
    assert EncodeProposal(p) + [] == EncodeProposal(p);
  }

  lemma HeaderVerifies(view: nat)
    requires view == 1 || view == 2
    ensures VerifyHeader(CryptoOf(ProposalIn(1), ProposalIn(2)), KEY, HeaderFor(view)) ==
            Ok(DecodedProposal(0, view, 0, Repeat(view as byte, 32)))
  {
    hide DecodeProposal, ProposalIn, UnionUnique, Hex.Encode, Hex.Decode;
    Hex.RoundTrip(Repeat(1, 96));
    ProposalReads(view);
  }

  lemma OnlyTwoVerify(votes: set<Vote>, n: nat)
    requires Backed(votes, n, ProposalIn(1)) && Backed(votes, n, ProposalIn(2))
    ensures Unforgeable(CryptoOf(ProposalIn(1), ProposalIn(2)), KEY, votes, n)
  {
    hide DecodeProposal, ProposalIn, UnionUnique, Hex.Encode, Hex.Decode, Backed;
    var c := CryptoOf(ProposalIn(1), ProposalIn(2));
    forall header | VerifyHeader(c, KEY, header).Ok?
      ensures Backed(votes, n, header.proposalBytes)
    {
      var view := if UnionUnique(FINALIZE_NAMESPACE, header.proposalBytes) ==
                     UnionUnique(FINALIZE_NAMESPACE, ProposalIn(1)) then 1 else 2;
      NamespaceIsShort();
      UnionUniqueInjective(FINALIZE_NAMESPACE, header.proposalBytes, FINALIZE_NAMESPACE, ProposalIn(view));
    }
  }

  lemma NamespaceIsShort()
    ensures |FINALIZE_NAMESPACE| <= U64_MAX
  {
  }

  /** A client freezes though no share ever voted twice in a round: two honest rounds, both
      certificates labelled with one height, under certificates that verify only for what
      a quorum voted for. */
  lemma HonestRoundsFreeze(H: Hasher) returns (c: Crypto, store: Store, a: Header, b: Header, votes: set<Vote>)
    ensures IsInstance(store, FRESH_STATE, FRESH_CONSENSUS) && Unforgeable(c, KEY, votes, 4)
    ensures Equivocators(votes, 4) == {} && Freezes(c, H, store, a, b)
  {
    hide DecodeProposal, ProposalIn, UnionUnique, Hex.Encode, Hex.Decode, Backed, Unforgeable, Freezes,
         VerifyHeader, CryptoOf, Equivocators, BothVoted, KEY;
    c, a, b := CryptoOf(ProposalIn(1), ProposalIn(2)), HeaderFor(1), HeaderFor(2);
    votes := BothVoted(4, ProposalIn(1), ProposalIn(2));
    BothBacked(4, ProposalIn(1), ProposalIn(2));
    OnlyTwoVerify(votes, 4);
    RoundsApart();
    NobodyEquivocates(4, ProposalIn(1), ProposalIn(2));
    store := Store(Some((FRESH_STATE, [])), map[FRESH_STATE.latestHeight := FRESH_CONSENSUS]);
    InstanceMade(store);
    InstanceInv(store, FRESH_STATE, FRESH_CONSENSUS);
    HeaderVerifies(1);
    HeaderVerifies(2);
    PayloadsApart();
    FreezesIff(c, H, store, a, b);
  }

  lemma RoundsApart()
    ensures !Clash(ProposalIn(1), ProposalIn(2))
  {
    hide DecodeProposal, ProposalIn;
    ProposalReads(1);
    ProposalReads(2);
  }

  lemma PayloadsApart()
    ensures Repeat(1, 32) != Repeat(2, 32)
  {
    assert Repeat(1, 32)[0] != Repeat(2, 32)[0];
  }

  lemma InstanceMade(store: Store)
    requires store == Store(Some((FRESH_STATE, [])), map[FRESH_STATE.latestHeight := FRESH_CONSENSUS])
    ensures IsInstance(store, FRESH_STATE, FRESH_CONSENSUS)
  {
    hide Hex.Encode, Hex.Decode;
    Hex.RoundTrip(Repeat(1, 96));
    assert Instantiated(FRESH_STATE, FRESH_CONSENSUS, []) == Ok(store);
  }
}
