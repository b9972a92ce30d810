/** The 08-wasm light client contract: header updates, misbehaviour, and
    membership proofs, as a state machine over its storage. */
module LightClient {
  import opened Common
  import opened Merkle
  import opened Proposal
  import opened WasmStore
  import opened Block
  import opened StateRoot
  import Hex
  import Varint

  datatype ClientState = ClientState(
    chainId: Bytes,
    groupPublicKeyHex: Bytes,
    latestHeight: Height,
    frozenHeight: Option<Height>)

  datatype ConsensusState = ConsensusState(
    payloadDigestHex: Bytes,
    timestamp: nat,
    epoch: nat,
    view: nat,
    parent: nat)

  datatype Header = Header(height: Height, timestamp: nat, proposalBytes: Bytes, certificateBytes: Bytes)

  datatype Proof = Proof(payloadBytes: Bytes, leafIndex: nat, siblings: seq<Option<Bytes>>)

  /** A message after JSON decoding; `None` is a body that does not parse. */
  datatype SudoMsg =
    | UpdateState(header: Option<Header>)
    | UpdateStateOnMisbehaviour(headers: Option<(Header, Header)>)
    | VerifyMembership(height: Height, proof: Option<Proof>, keyPath: seq<Bytes>, value: Bytes)
    | VerifyNonMembership
    | VerifyUpgradeAndUpdateState
    | MigrateClientStore

  datatype Error =
    | ParseError
    | NotFound
    | ClientFrozen(at: nat)
    | InvalidProposal
    | InvalidPublicKey
    | InvalidPublicKeyLength(n: nat)
    | InvalidCertificate
    | InvalidCertificateLength(n: nat)
    | VerificationFailed
    | NonMonotonicHeight(header: nat, latest: nat)
    | ConsensusStateNotFound(height: nat)
    | MisbehaviourMismatch
    | NoEquivocation
    | InvalidMembershipProof
    | MembershipProofsUnsupported
    | Unsupported

  datatype Response = Updated(heights: seq<Height>) | Empty

  /** The contract's stored values: what `wasmstore` saves and loads. */
  datatype Store = Store(
    client: Option<(ClientState, Bytes)>,
    consensus: map<Height, ConsensusState>)

  /** Curve-point parsing and the pairing check, left uninterpreted. */
  datatype Crypto = Crypto(
    publicKeyOnCurve: Bytes -> bool,
    signatureOnCurve: Bytes -> bool,
    pairingHolds: (Bytes, Bytes, Bytes) -> bool)

  const FINALIZE_NAMESPACE: Bytes := Ascii("slay3r-consensus-v1") + Ascii("_FINALIZE")

  // ----- checks -----

  /** `verify_certificate`. */
  function VerifyCertificate(c: Crypto, pk: Bytes, proposal: Bytes, cert: Bytes): Result<DecodedProposal, Error> {
    if |pk| != 96 then Err(InvalidPublicKeyLength(|pk|))
    else if |cert| != 48 then Err(InvalidCertificateLength(|cert|))
    else
      match DecodeProposal(proposal)
      case None => Err(InvalidProposal)
      case Some(decoded) =>
        if !c.publicKeyOnCurve(pk) then Err(InvalidPublicKey)
        else if !c.signatureOnCurve(cert) then Err(InvalidCertificate)
        else if c.pairingHolds(pk, UnionUnique(FINALIZE_NAMESPACE, proposal), cert) then Ok(decoded)
        else Err(VerificationFailed)
  }

  /** The signature half of a header check, against the key the client trusts. */
  function VerifyHeader(c: Crypto, keyHex: Bytes, header: Header): Result<DecodedProposal, Error> {
    match Hex.Decode(keyHex)
    case None => Err(InvalidPublicKey)
    case Some(pk) => VerifyCertificate(c, pk, header.proposalBytes, header.certificateBytes)
  }

  /** `check_header`. */
  function CheckHeader(c: Crypto, cs: ClientState, header: Header): Result<DecodedProposal, Error> {
    if cs.frozenHeight.Some? then Err(ClientFrozen(cs.frozenHeight.value.revisionHeight))
    else if header.height.revisionNumber != cs.latestHeight.revisionNumber then Err(InvalidProposal)
    else VerifyHeader(c, cs.groupPublicKeyHex, header)
  }

  /** `check_update_header`. */
  function CheckUpdateHeader(c: Crypto, consensus: map<Height, ConsensusState>, cs: ClientState, header: Header)
      : Result<DecodedProposal, Error>
  {
    match CheckHeader(c, cs, header)
    case Err(e) => Err(e)
    case Ok(decoded) =>
      var h, latest := header.height.revisionHeight, cs.latestHeight.revisionHeight;
      if h <= latest then
        if h == latest && header.height !in consensus then Err(ConsensusStateNotFound(h))
        else if h == latest && consensus[header.height].payloadDigestHex == Hex.Encode(decoded.payload) then Ok(decoded)
        else Err(NonMonotonicHeight(h, latest))
      else if header.height in consensus
              && consensus[header.height].payloadDigestHex != Hex.Encode(decoded.payload) then
        Err(VerificationFailed)
      else Ok(decoded)
  }

  /** `check_misbehaviour`. */
  function CheckMisbehaviour(c: Crypto, cs: ClientState, a: Header, b: Header): Result<(), Error> {
    match CheckHeader(c, cs, a)
    case Err(e) => Err(e)
    case Ok(da) =>
      match CheckHeader(c, cs, b)
      case Err(e) => Err(e)
      case Ok(db) =>
        var sameRound := da.epoch == db.epoch && da.view == db.view;
        var sameHeight := a.height.revisionHeight == b.height.revisionHeight;
        if !sameRound && !sameHeight then Err(MisbehaviourMismatch)
        else if da.payload == db.payload then Err(NoEquivocation)
        else Ok(())
  }

  function Concat(parts: seq<Bytes>): Bytes {
    if parts == [] then [] else parts[0] + Concat(parts[1..])
  }

  /** Every given sibling must be 32 bytes long. */
  function ParseSiblings(siblings: seq<Option<Bytes>>): (p: Option<Path>)
    ensures p.Some? <==> forall s <- siblings :: s.Some? ==> |s.value| == 32
    ensures p.Some? ==> |p.value| == |siblings| && forall i :: 0 <= i < |siblings| ==> p.value[i] == siblings[i]
  {
    if forall s <- siblings :: s.Some? ==> |s.value| == 32 then
      Some(seq(|siblings|, i requires 0 <= i < |siblings| && (siblings[i].Some? ==> |siblings[i].value| == 32) =>
                 if siblings[i].Some? then Some(siblings[i].value) else None))
    else None
  }

  /** The membership branch of `sudo`. */
  function Verify(H: Hasher, store: Store, height: Height, proof: Option<Proof>, keyPath: seq<Bytes>, value: Bytes)
      : Result<Response, Error>
  {
    if height !in store.consensus then Err(ConsensusStateNotFound(height.revisionHeight))
    else
      match proof
      case None => Err(ParseError)
      case Some(p) =>
        var pb := p.payloadBytes;
        if Hex.Encode(H(pb)) != store.consensus[height].payloadDigestHex then Err(InvalidMembershipProof)
        else if |pb| < 32 then Err(InvalidMembershipProof)
        else
          match ParseSiblings(p.siblings)
          case None => Err(InvalidMembershipProof)
          case Some(path) =>
            var leaf := LeafHash(H, Concat(keyPath) + value);
            if WalkUp(H, leaf, p.leafIndex, path) != pb[|pb| - 32..] then Err(InvalidMembershipProof)
            else Ok(Empty)
  }

  // ----- transitions -----

  /** `instantiate`, after JSON decoding. */
  function Instantiated(cs: ClientState, initial: ConsensusState, checksum: Bytes): Result<Store, Error> {
    match Hex.Decode(cs.groupPublicKeyHex)
    case None => Err(InvalidPublicKey)
    case Some(pk) =>
      if |pk| != 96 then Err(InvalidPublicKeyLength(|pk|))
      else Ok(Store(Some((cs, checksum)), map[cs.latestHeight := initial]))
  }

  function Stored(header: Header, decoded: DecodedProposal): ConsensusState {
    ConsensusState(Hex.Encode(decoded.payload), header.timestamp, decoded.epoch, decoded.view, decoded.parent)
  }

  /** `sudo`: the next storage and the answer. An error leaves storage as it was. */
  function Sudo(c: Crypto, H: Hasher, store: Store, msg: SudoMsg): (Store, Result<Response, Error>) {
    match msg
    case UpdateState(header) =>
      if store.client.None? then (store, Err(NotFound))
      else if header.None? then (store, Err(ParseError))
      else
        var (cs, checksum) := store.client.value;
        var h := header.value;
        (match CheckUpdateHeader(c, store.consensus, cs, h)
         case Err(e) => (store, Err(e))
         case Ok(decoded) =>
           (Store(Some((cs.(latestHeight := h.height), checksum)), store.consensus[h.height := Stored(h, decoded)]),
            Ok(Updated([h.height]))))
    case UpdateStateOnMisbehaviour(headers) =>
      if store.client.None? then (store, Err(NotFound))
      else if headers.None? then (store, Err(ParseError))
      else
        var (cs, checksum) := store.client.value;
        var (a, b) := headers.value;
        (match CheckMisbehaviour(c, cs, a, b)
         case Err(e) => (store, Err(e))
         case Ok(_) =>
           var at := Min(a.height.revisionHeight, b.height.revisionHeight);
           (store.(client := Some((cs.(frozenHeight := Some(Height(0, at))), checksum))), Ok(Empty)))
    case VerifyMembership(height, proof, keyPath, value) => (store, Verify(H, store, height, proof, keyPath, value))
    case VerifyNonMembership => (store, Err(MembershipProofsUnsupported))
    case VerifyUpgradeAndUpdateState => (store, Err(Unsupported))
    case MigrateClientStore => (store, Ok(Empty))
  }

  /** The contract as the host drives it. */
  class Contract {
    const crypto: Crypto
    const H: Hasher
    var client: Option<(ClientState, Bytes)>
    var consensus: map<Height, ConsensusState>

    ghost function View(): Store
      reads this
    {
      Store(client, consensus)
    }

    constructor (crypto: Crypto, H: Hasher)
      ensures this.crypto == crypto && this.H == H
      ensures View() == Store(None, map[])
    {
      this.crypto := crypto;
      this.H := H;
      client := None;
      consensus := map[];
    }

    method Instantiate(cs: ClientState, initial: ConsensusState, checksum: Bytes) returns (r: Result<(), Error>)
      requires View() == Store(None, map[])
      modifies this
      ensures match Instantiated(cs, initial, checksum)
              case Ok(store) => r == Ok(()) && View() == store
              case Err(e) => r == Err(e) && View() == old(View())
    {
      var pk := Hex.Decode(cs.groupPublicKeyHex);
      if pk.None? {
        return Err(InvalidPublicKey);
      }
      if |pk.value| != 96 {
        return Err(InvalidPublicKeyLength(|pk.value|));
      }
      consensus := consensus[cs.latestHeight := initial];
      client := Some((cs, checksum));
      return Ok(());
    }

    /** The membership check with its loops: sibling conversion and the proof walk. */
    method CheckMembership(height: Height, proof: Option<Proof>, keyPath: seq<Bytes>, value: Bytes)
        returns (r: Result<Response, Error>)
      ensures r == Verify(H, View(), height, proof, keyPath, value)
    {
      if height !in consensus {
        return Err(ConsensusStateNotFound(height.revisionHeight));
      }
      if proof.None? {
        return Err(ParseError);
      }
      var p := proof.value;
      var pb := p.payloadBytes;
      if Hex.Encode(H(pb)) != consensus[height].payloadDigestHex {
        return Err(InvalidMembershipProof);
      }
      if |pb| < 32 {
        return Err(InvalidMembershipProof);
      }
      var stateRoot := pb[|pb| - 32..];
      var leaf := LeafHash(H, Concat(keyPath) + value);
      var siblings: Path := [];
      for i := 0 to |p.siblings|
        invariant |siblings| == i
        invariant forall j :: 0 <= j < i ==> siblings[j] == p.siblings[j]
        invariant forall j :: 0 <= j < i && p.siblings[j].Some? ==> |p.siblings[j].value| == 32
      {
        match p.siblings[i] {
          case None => siblings := siblings + [None];
          case Some(b) =>
            if |b| != 32 {
              assert p.siblings[i] in p.siblings;
              return Err(InvalidMembershipProof);
            }
            siblings := siblings + [Some(b)];
        }
      }
      ghost var parsed := ParseSiblings(p.siblings);
      assert parsed.value == siblings;
      var root := ComputeRoot(H, leaf, p.leafIndex, siblings);
      if root != stateRoot {
        return Err(InvalidMembershipProof);
      }
      return Ok(Empty);
    }

    method Handle(msg: SudoMsg) returns (r: Result<Response, Error>)
      modifies this
      ensures (View(), r) == Sudo(crypto, H, old(View()), msg)
    {
      match msg {
        case UpdateState(header) =>
          if client.None? {
            return Err(NotFound);
          }
          if header.None? {
            return Err(ParseError);
          }
          var (cs, checksum) := client.value;
          var h := header.value;
          var checked := CheckUpdateHeader(crypto, consensus, cs, h);
          if checked.Err? {
            return Err(checked.error);
          }
          consensus := consensus[h.height := Stored(h, checked.value)];
          client := Some((cs.(latestHeight := h.height), checksum));
          return Ok(Updated([h.height]));
        case UpdateStateOnMisbehaviour(headers) =>
          if client.None? {
            return Err(NotFound);
          }
          if headers.None? {
            return Err(ParseError);
          }
          var (cs, checksum) := client.value;
          var (a, b) := headers.value;
          var checked := CheckMisbehaviour(crypto, cs, a, b);
          if checked.Err? {
            return Err(checked.error);
          }
          var at := Min(a.height.revisionHeight, b.height.revisionHeight);
          client := Some((cs.(frozenHeight := Some(Height(0, at))), checksum));
          return Ok(Empty);
        case VerifyMembership(height, proof, keyPath, value) =>
          r := CheckMembership(height, proof, keyPath, value);
        case VerifyNonMembership => return Err(MembershipProofsUnsupported);
        case VerifyUpgradeAndUpdateState => return Err(Unsupported);
        case MigrateClientStore => return Ok(Empty);
      }
    }
  }

  // ----- runs -----

  /** The storage after a sequence of `sudo` calls. */
  function Run(c: Crypto, H: Hasher, store: Store, msgs: seq<SudoMsg>): Store
    decreases |msgs|
  {
    if msgs == [] then store
    else Sudo(c, H, Run(c, H, store, msgs[..|msgs| - 1]), msgs[|msgs| - 1]).0
  }

  /** What every reachable storage satisfies. */
  ghost predicate Inv(store: Store) {
    && store.client.Some?
    && var latest := store.client.value.0.latestHeight;
       && latest in store.consensus
       && forall h <- store.consensus ::
            h.revisionNumber == latest.revisionNumber && h.revisionHeight <= latest.revisionHeight
  }

  /** What one storage promises about any later one. */
  ghost predicate Extends(s: Store, t: Store)
    requires s.client.Some? && t.client.Some?
  {
    var (cs, sum) := s.client.value;
    var (ct, sum') := t.client.value;
    && sum == sum' && cs.groupPublicKeyHex == ct.groupPublicKeyHex && cs.chainId == ct.chainId
    && cs.latestHeight.revisionNumber == ct.latestHeight.revisionNumber
    && cs.latestHeight.revisionHeight <= ct.latestHeight.revisionHeight
    && (forall h <- s.consensus ::
          h in t.consensus && t.consensus[h].payloadDigestHex == s.consensus[h].payloadDigestHex)
    && (cs.frozenHeight.Some? ==> ct == cs && t.consensus == s.consensus)
  }

  lemma InstantiateEstablishesInv(cs: ClientState, initial: ConsensusState, checksum: Bytes)
    ensures var r := Instantiated(cs, initial, checksum); r.Ok? ==> Inv(r.value)
  {
  }

  lemma SudoKeepsInv(c: Crypto, H: Hasher, store: Store, msg: SudoMsg)
    requires Inv(store)
    ensures var next := Sudo(c, H, store, msg).0; Inv(next) && Extends(store, next)
  {
  }

  lemma {:induction false} RunKeepsInv(c: Crypto, H: Hasher, store: Store, msgs: seq<SudoMsg>)
    requires Inv(store)
    ensures Inv(Run(c, H, store, msgs))
    decreases |msgs|
  {
    if msgs != [] {
      var before := Run(c, H, store, msgs[..|msgs| - 1]);
      RunKeepsInv(c, H, store, msgs[..|msgs| - 1]);
      SudoKeepsInv(c, H, before, msgs[|msgs| - 1]);
    }
  }

  lemma ExtendsTransitive(a: Store, b: Store, c: Store)
    requires a.client.Some? && b.client.Some? && c.client.Some?
    requires Extends(a, b) && Extends(b, c)
    ensures Extends(a, c)
  {
  }

  /** Between any two points of any run: the latest height never decreases, a stored
      digest never changes, the trusted key never changes, and once frozen the
      client state and every consensus state stay as they are. */
  lemma {:induction false} RunExtends(c: Crypto, H: Hasher, store: Store, msgs: seq<SudoMsg>, i: nat, j: nat)
    requires Inv(store) && i <= j <= |msgs|
    ensures var s, t := Run(c, H, store, msgs[..i]), Run(c, H, store, msgs[..j]);
            s.client.Some? && t.client.Some? && Extends(s, t)
    decreases j
  {
    var s, t := Run(c, H, store, msgs[..i]), Run(c, H, store, msgs[..j]);
    RunKeepsInv(c, H, store, msgs[..i]);
    RunKeepsInv(c, H, store, msgs[..j]);
    if i < j {
      assert msgs[..j][..j - 1] == msgs[..j - 1];
      var prev := Run(c, H, store, msgs[..j - 1]);
      RunExtends(c, H, store, msgs, i, j - 1);
      RunKeepsInv(c, H, store, msgs[..j - 1]);
      SudoKeepsInv(c, H, prev, msgs[j - 1]);
      ExtendsTransitive(s, prev, t);
    }
  }

  /** In a reachable storage the equivocation guard cannot fire, and the latest
      consensus state is always found: above the latest height, a header passes the
      update check exactly when it passes the header check. */
  lemma EquivocationGuardIsDead(c: Crypto, H: Hasher, store: Store, msgs: seq<SudoMsg>, header: Header)
    requires Inv(store)
    ensures var s := Run(c, H, store, msgs);
            && s.client.Some?
            && var cs := s.client.value.0;
               var checked := CheckUpdateHeader(c, s.consensus, cs, header);
               && (header.height.revisionHeight > cs.latestHeight.revisionHeight ==>
                     checked == CheckHeader(c, cs, header))
               && (checked.Err? ==> checked.error != ConsensusStateNotFound(header.height.revisionHeight))
  {
    RunKeepsInv(c, H, store, msgs);
  }

  /** `digest` at `h` was certified by the header that call `i` submitted. */
  ghost predicate CertifiedBy(c: Crypto, keyHex: Bytes, msgs: seq<SudoMsg>, i: nat, h: Height, digest: Bytes) {
    && i < |msgs| && msgs[i].UpdateState? && msgs[i].header.Some?
    && var header := msgs[i].header.value;
       && header.height == h
       && var d := VerifyHeader(c, keyHex, header);
          d.Ok? && digest == Hex.Encode(d.value.payload)
  }

  /** One call either leaves a height's digest alone or is its certified update. */
  lemma SudoCertifies(c: Crypto, H: Hasher, store: Store, msg: SudoMsg, h: Height)
    requires Inv(store) && h in Sudo(c, H, store, msg).0.consensus
    ensures var next := Sudo(c, H, store, msg).0;
            || (h in store.consensus && next.consensus[h] == store.consensus[h])
            || CertifiedBy(c, store.client.value.0.groupPublicKeyHex, [msg], 0, h, next.consensus[h].payloadDigestHex)
  {
  }

  /** Every stored digest is the initial one or was certified under the trusted key by
      a header whose submitter labelled it with that height. */
  lemma {:induction false} DigestsAreCertified(c: Crypto, H: Hasher, store: Store, msgs: seq<SudoMsg>, h: Height)
      returns (i: nat)
    requires Inv(store) && h in Run(c, H, store, msgs).consensus
    ensures var digest := Run(c, H, store, msgs).consensus[h].payloadDigestHex;
            || (h in store.consensus && store.consensus[h].payloadDigestHex == digest)
            || CertifiedBy(c, store.client.value.0.groupPublicKeyHex, msgs, i, h, digest)
    decreases |msgs|
  {
    i := 0;
    if msgs != [] {
      var n := |msgs| - 1;
      var before, after := Run(c, H, store, msgs[..n]), Run(c, H, store, msgs);
      RunKeepsInv(c, H, store, msgs[..n]);
      KeyIsFixed(c, H, store, msgs[..n]);
      SudoCertifies(c, H, before, msgs[n], h);
      if h in before.consensus && after.consensus[h] == before.consensus[h] {
        i := DigestsAreCertified(c, H, store, msgs[..n], h);
      } else {
        i := n;
      }
    }
  }

  lemma KeyIsFixed(c: Crypto, H: Hasher, store: Store, msgs: seq<SudoMsg>)
    requires Inv(store)
    ensures var s := Run(c, H, store, msgs);
            s.client.Some? && s.client.value.0.groupPublicKeyHex == store.client.value.0.groupPublicKeyHex
  {
    assert msgs[..0] == [] && msgs[..|msgs|] == msgs;
    RunExtends(c, H, store, msgs, 0, |msgs|);
  }

  // ----- freezing -----

  /** Two headers certified under the key for different payloads. */
  predicate Conflicting(c: Crypto, keyHex: Bytes, a: Header, b: Header) {
    var da, db := VerifyHeader(c, keyHex, a), VerifyHeader(c, keyHex, b);
    da.Ok? && db.Ok? && da.value.payload != db.value.payload
  }

  /** The round is signed: it is part of the proposal. */
  predicate SameRound(c: Crypto, keyHex: Bytes, a: Header, b: Header) {
    var da, db := VerifyHeader(c, keyHex, a), VerifyHeader(c, keyHex, b);
    da.Ok? && db.Ok? && da.value.epoch == db.value.epoch && da.value.view == db.value.view
  }

  /** Call `i` submitted two conflicting headers, of one signed round or labelled with one
      height. */
  ghost predicate Accused(c: Crypto, keyHex: Bytes, msgs: seq<SudoMsg>, i: nat) {
    && i < |msgs| && msgs[i].UpdateStateOnMisbehaviour? && msgs[i].headers.Some?
    && var (a, b) := msgs[i].headers.value;
       && Conflicting(c, keyHex, a, b)
       && (SameRound(c, keyHex, a, b) || a.height.revisionHeight == b.height.revisionHeight)
  }

  /** A client freezes only on two conflicting headers that are certified under its own
      key and agree in their round or in their label. */
  lemma {:induction false} FrozenOnlyByConflict(c: Crypto, H: Hasher, store: Store, msgs: seq<SudoMsg>)
      returns (i: nat)
    requires Inv(store) && store.client.value.0.frozenHeight.None?
    requires Run(c, H, store, msgs).client.Some? && Run(c, H, store, msgs).client.value.0.frozenHeight.Some?
    ensures Accused(c, store.client.value.0.groupPublicKeyHex, msgs, i)
    decreases |msgs|
  {
    var n := |msgs| - 1;
    var before := Run(c, H, store, msgs[..n]);
    RunKeepsInv(c, H, store, msgs[..n]);
    KeyIsFixed(c, H, store, msgs[..n]);
    if before.client.value.0.frozenHeight.Some? {
      i := FrozenOnlyByConflict(c, H, store, msgs[..n]);
    } else {
      hide VerifyHeader, Run, Inv, Verify;
      i := n;
    }
  }

  /** Submitting `a` and `b` as misbehaviour leaves the client frozen. */
  predicate Freezes(c: Crypto, H: Hasher, store: Store, a: Header, b: Header) {
    var next := Sudo(c, H, store, UpdateStateOnMisbehaviour(Some((a, b)))).0;
    next.client.Some? && next.client.value.0.frozenHeight.Some?
  }

  /** What leaves a client frozen, exactly. */
  lemma FreezesIff(c: Crypto, H: Hasher, store: Store, a: Header, b: Header)
    requires Inv(store)
    ensures var cs := store.client.value.0;
            Freezes(c, H, store, a, b) <==>
            cs.frozenHeight.Some? ||
            (&& Conflicting(c, cs.groupPublicKeyHex, a, b)
             && a.height.revisionNumber == b.height.revisionNumber == cs.latestHeight.revisionNumber
             && (SameRound(c, cs.groupPublicKeyHex, a, b) || a.height.revisionHeight == b.height.revisionHeight))
  {
    hide VerifyHeader;
  }

  /** The certificate of `header` under another height: the signature covers the proposal
      alone, so the label is the submitter's. */
  function Labelled(header: Header, height: Height): Header {
    header.(height := height)
  }

  lemma LabelIsNotSigned(c: Crypto, keyHex: Bytes, header: Header, height: Height)
    ensures VerifyHeader(c, keyHex, Labelled(header, height)) == VerifyHeader(c, keyHex, header)
  {
  }

  /** Two certificates can be labelled so that they freeze an unfrozen client iff both
      verify and their payloads differ, whatever rounds they are of. */
  lemma SomeLabelsFreezeIff(c: Crypto, H: Hasher, store: Store, a: Header, b: Header)
    requires Inv(store) && store.client.value.0.frozenHeight.None?
    ensures (exists ha, hb :: Freezes(c, H, store, Labelled(a, ha), Labelled(b, hb))) <==>
            Conflicting(c, store.client.value.0.groupPublicKeyHex, a, b)
  {
    hide VerifyHeader, Freezes;
    var cs := store.client.value.0;
    forall ha, hb
      ensures Freezes(c, H, store, Labelled(a, ha), Labelled(b, hb)) ==>
              Conflicting(c, cs.groupPublicKeyHex, a, b)
    {
      FreezesIff(c, H, store, Labelled(a, ha), Labelled(b, hb));
      LabelIsNotSigned(c, cs.groupPublicKeyHex, a, ha);
      LabelIsNotSigned(c, cs.groupPublicKeyHex, b, hb);
    }
    var h := cs.latestHeight;
    FreezesIff(c, H, store, Labelled(a, h), Labelled(b, h));
    LabelIsNotSigned(c, cs.groupPublicKeyHex, a, h);
    LabelIsNotSigned(c, cs.groupPublicKeyHex, b, h);
  }

  /** They freeze it under every two labels of its revision iff their signed rounds are
      equal too. */
  lemma AnyLabelsFreezeIff(c: Crypto, H: Hasher, store: Store, a: Header, b: Header)
    requires Inv(store) && store.client.value.0.frozenHeight.None?
    ensures var cs := store.client.value.0;
            (forall ha: Height, hb: Height | ha.revisionNumber == hb.revisionNumber == cs.latestHeight.revisionNumber ::
               Freezes(c, H, store, Labelled(a, ha), Labelled(b, hb))) <==>
            Conflicting(c, cs.groupPublicKeyHex, a, b) && SameRound(c, cs.groupPublicKeyHex, a, b)
  {
    hide VerifyHeader, Freezes;
    var cs := store.client.value.0;
    forall ha: Height, hb: Height | ha.revisionNumber == hb.revisionNumber == cs.latestHeight.revisionNumber
      ensures Freezes(c, H, store, Labelled(a, ha), Labelled(b, hb)) <==>
              && Conflicting(c, cs.groupPublicKeyHex, a, b)
              && (SameRound(c, cs.groupPublicKeyHex, a, b) || ha.revisionHeight == hb.revisionHeight)
    {
      FreezesIff(c, H, store, Labelled(a, ha), Labelled(b, hb));
      LabelIsNotSigned(c, cs.groupPublicKeyHex, a, ha);
      LabelIsNotSigned(c, cs.groupPublicKeyHex, b, hb);
    }
    var rev := cs.latestHeight.revisionNumber;
    var ha, hb := Height(rev, 0), Height(rev, 1);
    assert ha.revisionNumber == rev && hb.revisionNumber == rev;
    assert Freezes(c, H, store, Labelled(a, ha), Labelled(b, hb)) ==> SameRound(c, cs.groupPublicKeyHex, a, b);
  }

  /** Nor does the height under which a digest is stored depend on anything signed: one
      certificate can be stored at every height of the revision above the latest, and
      is refused at all of them if it does not verify. */
  lemma StorableAtAnyHeightIff(c: Crypto, H: Hasher, store: Store, header: Header, h: Height)
    requires Inv(store) && store.client.value.0.frozenHeight.None?
    requires var latest := store.client.value.0.latestHeight;
             h.revisionNumber == latest.revisionNumber && h.revisionHeight > latest.revisionHeight
    ensures var cs := store.client.value.0;
            var (next, r) := Sudo(c, H, store, UpdateState(Some(Labelled(header, h))));
            var d := VerifyHeader(c, cs.groupPublicKeyHex, header);
            && (r.Ok? <==> d.Ok?)
            && (d.Ok? ==> h in next.consensus && next.consensus[h].payloadDigestHex == Hex.Encode(d.value.payload))
  {
    hide VerifyHeader;
    LabelIsNotSigned(c, store.client.value.0.groupPublicKeyHex, header, h);
    assert h !in store.consensus;
  }

  // ----- every run after instantiation -----

  /** A store that `instantiate` made. */
  ghost predicate IsInstance(store: Store, cs: ClientState, initial: ConsensusState) {
    exists checksum :: Instantiated(cs, initial, checksum) == Ok(store)
  }

  lemma InstanceInv(store: Store, cs: ClientState, initial: ConsensusState)
    requires IsInstance(store, cs, initial)
    ensures Inv(store) && store.client.value.0 == cs && store.consensus == map[cs.latestHeight := initial]
  {
    var checksum :| Instantiated(cs, initial, checksum) == Ok(store);
    InstantiateEstablishesInv(cs, initial, checksum);
  }

  /** The whole promise, from `instantiate` on: at every point of every run the storage is
      sound and extends every earlier one; each digest in it is the initial one or was
      certified under the initial key; and the client is frozen only if it was from the
      start or two conflicting headers were submitted. */
  lemma ClientHistory(c: Crypto, H: Hasher, store: Store, cs: ClientState, initial: ConsensusState,
                      msgs: seq<SudoMsg>, i: nat, j: nat)
    requires IsInstance(store, cs, initial) && i <= j <= |msgs|
    ensures var s, t := Run(c, H, store, msgs[..i]), Run(c, H, store, msgs[..j]);
            && Inv(s) && Inv(t) && Extends(s, t)
            && (forall h <- t.consensus ::
                  || (h == cs.latestHeight && t.consensus[h].payloadDigestHex == initial.payloadDigestHex)
                  || exists k :: CertifiedBy(c, cs.groupPublicKeyHex, msgs[..j], k, h, t.consensus[h].payloadDigestHex))
            && (t.client.value.0.frozenHeight.Some? ==>
                  cs.frozenHeight.Some? || exists k :: Accused(c, cs.groupPublicKeyHex, msgs[..j], k))
  {
    hide Run, Inv, Extends, CertifiedBy, Accused, Instantiated;
    InstanceInv(store, cs, initial);
    RunKeepsInv(c, H, store, msgs[..i]);
    RunKeepsInv(c, H, store, msgs[..j]);
    RunExtends(c, H, store, msgs, i, j);
    var t := Run(c, H, store, msgs[..j]);
    forall h <- t.consensus
      ensures || (h == cs.latestHeight && t.consensus[h].payloadDigestHex == initial.payloadDigestHex)
              || exists k :: CertifiedBy(c, cs.groupPublicKeyHex, msgs[..j], k, h, t.consensus[h].payloadDigestHex)
    {
      var k := DigestsAreCertified(c, H, store, msgs[..j], h);
    }
    if t.client.value.0.frozenHeight.Some? && cs.frozenHeight.None? {
      var k := FrozenOnlyByConflict(c, H, store, msgs[..j]);
    }
  }

  // ----- what each answer means -----

  /** When a header verifies, exactly: the trusted key is 96 bytes and the certificate 48,
      both points on their curves, the proposal decodes, and the pairing holds over the
      finalize namespace, its length in front, followed by the proposal. */
  lemma VerifiesIff(c: Crypto, keyHex: Bytes, header: Header, d: DecodedProposal)
    ensures VerifyHeader(c, keyHex, header) == Ok(d) <==>
            && Hex.Decode(keyHex).Some? && |Hex.Decode(keyHex).value| == 96 && |header.certificateBytes| == 48
            && c.publicKeyOnCurve(Hex.Decode(keyHex).value) && c.signatureOnCurve(header.certificateBytes)
            && DecodeProposal(header.proposalBytes) == Some(d)
            && c.pairingHolds(Hex.Decode(keyHex).value,
                              [28] + Ascii("slay3r-consensus-v1_FINALIZE") + header.proposalBytes,
                              header.certificateBytes)
  {
    hide DecodeProposal, Hex.Decode;
    NamespaceSpelled(header.proposalBytes);
  }

  lemma NamespaceSpelled(msg: Bytes)
    ensures UnionUnique(FINALIZE_NAMESPACE, msg) == [28] + Ascii("slay3r-consensus-v1_FINALIZE") + msg
  {
    assert FINALIZE_NAMESPACE == Ascii("slay3r-consensus-v1_FINALIZE");
    assert Varint.Encode(28) == [28];
  }

  /** `instantiate` succeeds iff the key is hexadecimal for 96 bytes, and then stores the
      given states, the consensus state under the latest height. */
  lemma InstantiatesIff(cs: ClientState, initial: ConsensusState, checksum: Bytes)
    ensures Instantiated(cs, initial, checksum).Ok? <==>
            Hex.Decode(cs.groupPublicKeyHex).Some? && |Hex.Decode(cs.groupPublicKeyHex).value| == 96
    ensures Instantiated(cs, initial, checksum).Ok? ==>
            Instantiated(cs, initial, checksum).value == Store(Some((cs, checksum)), map[cs.latestHeight := initial])
  {
    hide Hex.Decode;
  }

  /** The update check passes: the client is not frozen, the header is of its revision and
      verifies, and it is above the latest height or repeats the digest stored there. */
  ghost predicate Updates(c: Crypto, store: Store, header: Header)
    requires Inv(store)
  {
    var cs := store.client.value.0;
    var d := VerifyHeader(c, cs.groupPublicKeyHex, header);
    && cs.frozenHeight.None? && header.height.revisionNumber == cs.latestHeight.revisionNumber && d.Ok?
    && (|| header.height.revisionHeight > cs.latestHeight.revisionHeight
        || (header.height == cs.latestHeight &&
            store.consensus[cs.latestHeight].payloadDigestHex == Hex.Encode(d.value.payload)))
  }

  /** What every `sudo` call answers and stores, exactly. */
  lemma SudoIsExact(c: Crypto, H: Hasher, store: Store, msg: SudoMsg)
    requires Inv(store)
    ensures var (next, r) := Sudo(c, H, store, msg);
            var (cs, checksum) := store.client.value;
            && (r.Err? ==> next == store)
            && match msg
               case UpdateState(header) =>
                 && (r.Ok? <==> header.Some? && Updates(c, store, header.value))
                 && (r.Ok? ==>
                       var h, d := header.value, VerifyHeader(c, cs.groupPublicKeyHex, header.value).value;
                       && r.value == Updated([h.height])
                       && next.client == Some((cs.(latestHeight := h.height), checksum))
                       && next.consensus == store.consensus[h.height :=
                            ConsensusState(Hex.Encode(d.payload), h.timestamp, d.epoch, d.view, d.parent)])
               case UpdateStateOnMisbehaviour(headers) =>
                 && (r.Ok? <==>
                     headers.Some? && cs.frozenHeight.None? && Freezes(c, H, store, headers.value.0, headers.value.1))
                 && (r.Ok? ==>
                       var (a, b) := headers.value;
                       var at := Min(a.height.revisionHeight, b.height.revisionHeight);
                       && r.value == Empty && next.consensus == store.consensus
                       && next.client == Some((cs.(frozenHeight := Some(Height(0, at))), checksum)))
               case VerifyMembership(height, proof, keyPath, value) =>
                 next == store && r == Verify(H, store, height, proof, keyPath, value)
               case VerifyNonMembership => r == Err(MembershipProofsUnsupported)
               case VerifyUpgradeAndUpdateState => r == Err(Unsupported)
               case MigrateClientStore => r == Ok(Empty) && next == store
  {
    hide VerifyHeader, Verify;
  }

  /** The key path is one string: its parts in order, wherever it is cut. */
  lemma {:induction false} ConcatJoins(a: seq<Bytes>, part: Bytes, b: seq<Bytes>)
    ensures Concat(a + [part] + b) == Concat(a) + part + Concat(b)
    decreases |a|
  {
    var all := a + [part] + b;
    if a == [] {
      assert all[1..] == b;
    } else {
      ConcatJoins(a[1..], part, b);
      assert all[1..] == a[1..] + [part] + b && all[0] == a[0];
      assert a[0] + (Concat(a[1..]) + part + Concat(b)) == Concat(a) + part + Concat(b);
    }
  }

  predicate EndsWith(s: Bytes, tail: Bytes) {
    |tail| <= |s| && s[|s| - |tail|..] == tail
  }

  /** When a membership proof is accepted, exactly: there is a state for the height, the
      payload bytes have its digest, every sibling given is 32 bytes, and the walk up from
      the leaf of key and value ends in the bytes the payload ends with. */
  lemma MembershipIff(H: Hasher, store: Store, height: Height, proof: Option<Proof>, keyPath: seq<Bytes>, value: Bytes)
    ensures Verify(H, store, height, proof, keyPath, value) == Ok(Empty) <==>
            && height in store.consensus && proof.Some?
            && var p := proof.value;
            && Hex.Encode(H(p.payloadBytes)) == store.consensus[height].payloadDigestHex
            && (forall s <- p.siblings :: s.Some? ==> |s.value| == 32)
            && EndsWith(p.payloadBytes, WalkUp(H, LeafHash(H, Concat(keyPath) + value), p.leafIndex,
                                              ParseSiblings(p.siblings).value))
  {
    hide Hex.Encode, Concat, WalkUp, LeafHash;
  }

  /** A relayer may send the header it just sent again: it is accepted and changes nothing. */
  lemma ResentIsAccepted(c: Crypto, H: Hasher, store: Store, header: Header)
    requires Inv(store) && Sudo(c, H, store, UpdateState(Some(header))).1.Ok?
    ensures var (next, r) := Sudo(c, H, store, UpdateState(Some(header)));
            Sudo(c, H, next, UpdateState(Some(header))) == (next, r)
  {
    hide VerifyHeader, Sudo;
    var (next, r) := Sudo(c, H, store, UpdateState(Some(header)));
    SudoKeepsInv(c, H, store, UpdateState(Some(header)));
    SudoIsExact(c, H, store, UpdateState(Some(header)));
    SudoIsExact(c, H, next, UpdateState(Some(header)));
    assert next.consensus[header.height := next.consensus[header.height]] == next.consensus;
  }

  /** An accepted proof means what it should: whatever payload has the stored digest and
      whatever entries have its root, the proved bytes are an entry's, or two strings with
      one hash are at hand. */
  ghost predicate Explained(H: Hasher, store: Store, height: Height, proof: Option<Proof>, keyPath: seq<Bytes>,
                            value: Bytes)
    requires Verify(H, store, height, proof, keyPath, value).Ok?
  {
    forall p, scan ::
      store.consensus[height].payloadDigestHex == Hex.Encode(Digest(H, p)) && p.stateRoot == ScanRoot(H, scan) ==>
        Holds(H, ExplainMembership(H, store, height, proof, keyPath, value, p, scan),
              Concat(keyPath) + value, Data(scan))
  }

  /** What an `Ok` of the contract is worth, at every point of every run after `instantiate`:
      a header certified under the initial key, two conflicting ones, an explained proof, or
      nothing at all; never the absence of a key, and never an upgrade. */
  lemma OkMeans(c: Crypto, H: Hasher, store: Store, cs: ClientState, initial: ConsensusState,
                msgs: seq<SudoMsg>, i: nat)
    requires IsInstance(store, cs, initial) && i < |msgs|
    ensures var s, msg := Run(c, H, store, msgs[..i]), msgs[i];
            Sudo(c, H, s, msg).1.Ok? ==>
              || (msg.UpdateState? && msg.header.Some? && VerifyHeader(c, cs.groupPublicKeyHex, msg.header.value).Ok?)
              || Accused(c, cs.groupPublicKeyHex, msgs, i)
              || (msg.VerifyMembership? && Verify(H, s, msg.height, msg.proof, msg.keyPath, msg.value).Ok? &&
                  Explained(H, s, msg.height, msg.proof, msg.keyPath, msg.value))
              || msg.MigrateClientStore?
  {
    InstanceInv(store, cs, initial);
    RunKeepsInv(c, H, store, msgs[..i]);
    KeyIsFixed(c, H, store, msgs[..i]);
    var s := Run(c, H, store, msgs[..i]);
    hide VerifyHeader, Run, ExplainMembership, Concat, Data, Holds, Extends;
    SudoIsExact(c, H, s, msgs[i]);
    if msgs[i].UpdateStateOnMisbehaviour? && msgs[i].headers.Some? {
      FreezesIff(c, H, s, msgs[i].headers.value.0, msgs[i].headers.value.1);
    }
  }

  // ----- membership, end to end -----

  /** Soundness: an accepted proof against a height whose stored digest is that of
      payload `p`, carrying the root of the entries `scan`, yields a committed entry
      with exactly the proved bytes, or a collision. */
  function ExplainMembership(H: Hasher, store: Store, height: Height, proof: Option<Proof>,
                             keyPath: seq<Bytes>, value: Bytes, p: BlockPayload, scan: seq<Entry>): (f: Finding)
    requires Verify(H, store, height, proof, keyPath, value).Ok?
    requires store.consensus[height].payloadDigestHex == Hex.Encode(Digest(H, p))
    requires p.stateRoot == ScanRoot(H, scan)
    ensures Holds(H, f, Concat(keyPath) + value, Data(scan))
  {
    var pb := proof.value.payloadBytes;
    Hex.Injective(H(pb), Digest(H, p));
    if Concat(keyPath) + value in Data(scan) then Member(IndexIn(Data(scan), Concat(keyPath) + value))
    else if pb != ToBytes(p) then Broken(Collision(pb, ToBytes(p)))
    else
      StateRootIsLast(p);
      Explain(H, Concat(keyPath) + value, proof.value.leafIndex, ParseSiblings(proof.value.siblings).value, Data(scan))
  }

  function IndexIn(s: seq<Bytes>, b: Bytes): (i: nat)
    requires b in s
    ensures i < |s| && s[i] == b
  {
    if s[0] == b then 0 else 1 + IndexIn(s[1..], b)
  }

  function HonestProof(H: Hasher, p: BlockPayload, scan: seq<Entry>, i: nat): Proof
    requires i < |scan|
  {
    var path := PathOf(H, Leaves(H, Data(scan)), i);
    Proof(ToBytes(p), i, seq(|path|, k requires 0 <= k < |path| => if path[k].Some? then Some(path[k].value) else None))
  }

  /** Completeness: the proof the node serves for entry `i` is accepted for every key
      and value that together spell the bytes of that entry. With soundness above,
      these are, collisions aside, all the pairs any proof can establish. */
  lemma HonestProofAccepted(H: Hasher, store: Store, height: Height, p: BlockPayload, scan: seq<Entry>, i: nat,
                            keyPath: seq<Bytes>, value: Bytes)
    requires i < |scan| && height in store.consensus
    requires store.consensus[height].payloadDigestHex == Hex.Encode(Digest(H, p))
    requires p.stateRoot == ScanRoot(H, scan)
    requires Concat(keyPath) + value == scan[i].key + scan[i].value
    ensures Verify(H, store, height, Some(HonestProof(H, p, scan, i)), keyPath, value).Ok?
  {
    var leaves := Leaves(H, Data(scan));
    var path := PathOf(H, leaves, i);
    var proof := HonestProof(H, p, scan, i);
    StateRootIsLast(p);
    PathProvesLeaf(H, leaves, i);
    forall s <- proof.siblings | s.Some?
      ensures |s.value| == 32
    {
    }
    assert ParseSiblings(proof.siblings).value == path;
  }

  /** The boundary between key and value is not committed: with the single entry
      `ab` = `c` stored, the contract also accepts `a` = `bc`, which is not stored. */
  lemma BoundaryIsNotCommitted(H: Hasher, store: Store, height: Height, p: BlockPayload)
    requires height in store.consensus
    requires store.consensus[height].payloadDigestHex == Hex.Encode(Digest(H, p))
    requires p.stateRoot == ScanRoot(H, [Entry([97, 98], [99])])
    ensures var scan := [Entry([97, 98], [99])];
            && Verify(H, store, height, Some(HonestProof(H, p, scan, 0)), [[97]], [98, 99]).Ok?
            && Entry([97], [98, 99]) !in scan
  {
    assert Concat([[97]]) == [97] + Concat([]);
    assert Concat([[97]]) + [98, 99] == [97, 98] + [99];
    HonestProofAccepted(H, store, height, p, [Entry([97, 98], [99])], 0, [[97]], [98, 99]);
  }

  /** Every entry whose bytes begin with `k` has its remainder stored under `k`. */
  ghost predicate RemaindersStored(scan: seq<Entry>, k: Bytes) {
    forall e <- scan :: k <= e.key + e.value ==> Entry(k, (e.key + e.value)[|k|..]) in scan
  }

  /** Whatever an accepted proof establishes for `k` is stored, unless the proof comes with
      a collision. */
  ghost predicate Binds(H: Hasher, store: Store, height: Height, p: BlockPayload, scan: seq<Entry>, k: Bytes)
    requires height in store.consensus && p.stateRoot == ScanRoot(H, scan)
    requires store.consensus[height].payloadDigestHex == Hex.Encode(Digest(H, p))
  {
    forall proof, keyPath, value :: Concat(keyPath) == k && Verify(H, store, height, proof, keyPath, value).Ok? ==>
      Entry(k, value) in scan || ExplainMembership(H, store, height, proof, keyPath, value, p, scan).Broken?
  }

  /** An explanation is a collision iff the proved bytes are those of no entry. */
  lemma BrokenIffAbsent(H: Hasher, store: Store, height: Height, proof: Option<Proof>, keyPath: seq<Bytes>,
                        value: Bytes,
                        p: BlockPayload, scan: seq<Entry>)
    requires Verify(H, store, height, proof, keyPath, value).Ok?
    requires store.consensus[height].payloadDigestHex == Hex.Encode(Digest(H, p)) && p.stateRoot == ScanRoot(H, scan)
    ensures ExplainMembership(H, store, height, proof, keyPath, value, p, scan).Broken? <==>
            Concat(keyPath) + value !in Data(scan)
  {
    hide Verify, Concat, Data;
    var f := ExplainMembership(H, store, height, proof, keyPath, value, p, scan);
    if f.Member? {
      assert Data(scan)[f.i] == Concat(keyPath) + value;
    }
  }

  lemma DataIsOf(scan: seq<Entry>, b: Bytes) returns (i: nat)
    requires b in Data(scan)
    ensures i < |scan| && scan[i].key + scan[i].value == b
  {
    i :| 0 <= i < |Data(scan)| && Data(scan)[i] == b;
  }

  /** The exact condition for the boundary: membership proofs bind a key iff every entry
      whose bytes begin with it has its remainder stored under it. */
  lemma BindsIffRemaindersStored(H: Hasher, store: Store, height: Height, p: BlockPayload, scan: seq<Entry>, k: Bytes)
    requires height in store.consensus && p.stateRoot == ScanRoot(H, scan)
    requires store.consensus[height].payloadDigestHex == Hex.Encode(Digest(H, p))
    ensures Binds(H, store, height, p, scan, k) <==> RemaindersStored(scan, k)
  {
    if RemaindersStored(scan, k) {
      forall proof, keyPath, value | Concat(keyPath) == k && Verify(H, store, height, proof, keyPath, value).Ok?
        ensures Entry(k, value) in scan || ExplainMembership(H, store, height, proof, keyPath, value, p, scan).Broken?
      {
        StoredOrBroken(H, store, height, proof, keyPath, value, p, scan, k);
      }
    }
    if Binds(H, store, height, p, scan, k) {
      forall e <- scan | k <= e.key + e.value
        ensures Entry(k, (e.key + e.value)[|k|..]) in scan
      {
        RemainderIsProved(H, store, height, p, scan, k, e);
      }
    }
  }

  lemma StoredOrBroken(H: Hasher, store: Store, height: Height, proof: Option<Proof>, keyPath: seq<Bytes>, value: Bytes,
                       p: BlockPayload, scan: seq<Entry>, k: Bytes)
    requires Verify(H, store, height, proof, keyPath, value).Ok? && Concat(keyPath) == k && RemaindersStored(scan, k)
    requires store.consensus[height].payloadDigestHex == Hex.Encode(Digest(H, p)) && p.stateRoot == ScanRoot(H, scan)
    ensures Entry(k, value) in scan || ExplainMembership(H, store, height, proof, keyPath, value, p, scan).Broken?
  {
    hide Verify, Concat, Data, ExplainMembership;
    BrokenIffAbsent(H, store, height, proof, keyPath, value, p, scan);
    if k + value in Data(scan) {
      var i := DataIsOf(scan, k + value);
      assert (k + value)[|k|..] == value;
      assert scan[i] in scan;
    }
  }

  lemma RemainderIsProved(H: Hasher, store: Store, height: Height, p: BlockPayload, scan: seq<Entry>, k: Bytes,
                          e: Entry)
    requires height in store.consensus && p.stateRoot == ScanRoot(H, scan)
    requires store.consensus[height].payloadDigestHex == Hex.Encode(Digest(H, p))
    requires Binds(H, store, height, p, scan, k) && e in scan && k <= e.key + e.value
    ensures Entry(k, (e.key + e.value)[|k|..]) in scan
  {
    hide Verify, ExplainMembership, HonestProof, ScanRoot;
    var i :| 0 <= i < |scan| && scan[i] == e;
    var value := (e.key + e.value)[|k|..];
    assert Concat([k]) == k + Concat([]) == k;
    assert k + value == e.key + e.value;
    HonestProofAccepted(H, store, height, p, scan, i, [k], value);
    assert Data(scan)[i] == k + value;
    BrokenIffAbsent(H, store, height, Some(HonestProof(H, p, scan, i)), [k], value, p, scan);
  }

  /** In particular where no other entry's bytes begin with the key. */
  lemma PrefixFreeBinds(H: Hasher, store: Store, height: Height, p: BlockPayload, scan: seq<Entry>, k: Bytes)
    requires height in store.consensus && p.stateRoot == ScanRoot(H, scan)
    requires store.consensus[height].payloadDigestHex == Hex.Encode(Digest(H, p))
    requires forall e <- scan :: k <= e.key + e.value ==> e.key == k
    ensures Binds(H, store, height, p, scan, k)
  {
    forall e <- scan | k <= e.key + e.value
      ensures Entry(k, (e.key + e.value)[|k|..]) in scan
    {
      assert (e.key + e.value)[|k|..] == e.value;
    }
    BindsIffRemaindersStored(H, store, height, p, scan, k);
  }
}
