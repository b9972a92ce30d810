/** The light client over the bytes it shares with the host: every call of the contract
    on encoded storage is the call on the values that storage stands for. */
module LightClientBytes {
  import opened Common
  import opened Merkle
  import opened WasmStore
  import opened LightClient

  /** The JSON layer, left uninterpreted. */
  datatype Json = Json(
    client: ClientState -> Bytes,
    readClient: Bytes -> Option<ClientState>,
    consensus: ConsensusState -> Bytes,
    readConsensus: Bytes -> Option<ConsensusState>)

  ghost predicate Inverts(j: Json) {
    && (forall cs :: j.readClient(j.client(cs)) == Some(cs))
    && (forall c :: j.readConsensus(j.consensus(c)) == Some(c))
  }

  type Storage = map<Bytes, Bytes>

  // ----- reading -----

  /** `load_client_state`. */
  function ReadClient(j: Json, kv: Storage): Result<(ClientState, Bytes), Error> {
    match LoadedClient(kv)
    case Err(Absent) => Err(NotFound)
    case Err(_) => Err(ParseError)
    case Ok(saved) =>
      match j.readClient(saved.json)
      case None => Err(ParseError)
      case Some(cs) => Ok((cs, saved.checksum))
  }

  /** `may_load_consensus_state`. */
  function ReadConsensus(j: Json, kv: Storage, h: Height): Result<map<Height, ConsensusState>, Error> {
    match LoadedConsensus(kv, h)
    case Err(_) => Err(ParseError)
    case Ok(None) => Ok(map[])
    case Ok(Some(json)) =>
      match j.readConsensus(json)
      case None => Err(ParseError)
      case Some(c) => Ok(map[h := c])
  }

  /** What the branch of `msg` loads: the client state, the consensus state at the height
      it speaks of, or neither. */
  function Part(j: Json, kv: Storage, msg: SudoMsg): Result<Store, Error> {
    match msg
    case UpdateState(header) =>
      (match ReadClient(j, kv)
       case Err(e) => Err(e)
       case Ok(client) =>
         if header.None? then Ok(Store(Some(client), map[]))
         else
           match ReadConsensus(j, kv, header.value.height)
           case Err(e) => Err(e)
           case Ok(consensus) => Ok(Store(Some(client), consensus)))
    case UpdateStateOnMisbehaviour(_) =>
      (match ReadClient(j, kv)
       case Err(e) => Err(e)
       case Ok(client) => Ok(Store(Some(client), map[])))
    case VerifyMembership(height, _, _, _) =>
      (match ReadConsensus(j, kv, height)
       case Err(e) => Err(e)
       case Ok(consensus) => Ok(Store(None, consensus)))
    case _ => Ok(Store(None, map[]))
  }

  // ----- writing -----

  function SaveClient(j: Json, kv: Storage, client: (ClientState, Bytes)): Storage {
    WithClient(kv, j.client(client.0), client.1, client.0.latestHeight)
  }

  /** What the branch of `msg` saves. */
  function Written(j: Json, kv: Storage, msg: SudoMsg, next: Store, r: Result<Response, Error>): Storage {
    match msg
    case UpdateState(header) =>
      if r.Ok? && header.Some? && header.value.height in next.consensus && next.client.Some? then
        var h := header.value.height;
        SaveClient(j, WithConsensus(kv, h, j.consensus(next.consensus[h])), next.client.value)
      else kv
    case UpdateStateOnMisbehaviour(_) =>
      if r.Ok? && next.client.Some? then SaveClient(j, kv, next.client.value) else kv
    case _ => kv
  }

  /** `sudo` over storage. */
  function SudoBytes(j: Json, c: Crypto, H: Hasher, kv: Storage, msg: SudoMsg): (Storage, Result<Response, Error>) {
    match Part(j, kv, msg)
    case Err(e) => (kv, Err(e))
    case Ok(part) =>
      var (next, r) := Sudo(c, H, part, msg);
      (Written(j, kv, msg, next, r), r)
  }

  // ----- refinement -----

  /** `kv` holds the encodings of exactly the values in `store`. */
  ghost predicate Represents(j: Json, kv: Storage, store: Store) {
    && store.client.Some?
    && LoadedClient(kv) == Ok(Saved(j.client(store.client.value.0), store.client.value.1))
    && (forall h :: LoadedConsensus(kv, h) ==
          Ok(if h in store.consensus then Some(j.consensus(store.consensus[h])) else None))
  }

  /** The values are short enough for a 32-bit length. */
  ghost predicate Fits(j: Json, store: Store) {
    && (store.client.Some? ==>
          var (cs, checksum) := store.client.value;
          && cs.latestHeight.revisionNumber <= U64_MAX && cs.latestHeight.revisionHeight <= U64_MAX
          && |j.client(cs)| < TWO_32 && |checksum| < TWO_32
          && |EncodeWasmClientState(j.client(cs), checksum, cs.latestHeight)| < TWO_32)
    && (forall h <- store.consensus ::
          && |j.consensus(store.consensus[h])| < TWO_32
          && |EncodeWasmConsensusState(j.consensus(store.consensus[h]))| < TWO_32)
  }

  lemma ReadsBack(j: Json, kv: Storage, store: Store, h: Height)
    requires Inverts(j) && Represents(j, kv, store)
    ensures ReadClient(j, kv) == Ok(store.client.value)
    ensures ReadConsensus(j, kv, h) == Ok(if h in store.consensus then map[h := store.consensus[h]] else map[])
  {
    hide LoadedClient, LoadedConsensus;
  }

  /** An update looks at no other height than its own. */
  lemma UpdateIsLocal(c: Crypto, a: map<Height, ConsensusState>, b: map<Height, ConsensusState>, cs: ClientState,
                      h: Header)
    requires h.height in a <==> h.height in b
    requires h.height in a ==> a[h.height] == b[h.height]
    ensures CheckUpdateHeader(c, a, cs, h) == CheckUpdateHeader(c, b, cs, h)
  {
    hide CheckHeader, Hex.Encode;
  }

  lemma MembershipIsLocal(H: Hasher, a: Store, b: Store, height: Height, proof: Option<Proof>, keyPath: seq<Bytes>,
                          value: Bytes)
    requires height in a.consensus <==> height in b.consensus
    requires height in a.consensus ==> a.consensus[height] == b.consensus[height]
    ensures Verify(H, a, height, proof, keyPath, value) == Verify(H, b, height, proof, keyPath, value)
  {
    hide WalkUp, Concat, ParseSiblings, Hex.Encode;
  }

  lemma ClientSaved(j: Json, kv: Storage, store: Store, client: (ClientState, Bytes))
    requires Represents(j, kv, store) && Fits(j, Store(Some(client), map[]))
    ensures Represents(j, SaveClient(j, kv, client), store.(client := Some(client)))
  {
    hide LoadedClient, LoadedConsensus, WithClient, EncodeWasmClientState;
    LoadAfterSaveClient(kv, j.client(client.0), client.1, client.0.latestHeight);
  }

  lemma ConsensusSaved(j: Json, kv: Storage, store: Store, h: Height, c: ConsensusState)
    requires Represents(j, kv, store)
    requires |j.consensus(c)| < TWO_32 && |EncodeWasmConsensusState(j.consensus(c))| < TWO_32
    ensures Represents(j, WithConsensus(kv, h, j.consensus(c)), store.(consensus := store.consensus[h := c]))
  {
    hide LoadedClient, LoadedConsensus, WithConsensus, EncodeWasmConsensusState;
    LoadAfterSaveConsensus(kv, h, j.consensus(c));
  }

  lemma UpdateRefines(j: Json, c: Crypto, H: Hasher, kv: Storage, store: Store, header: Option<Header>)
    requires Inverts(j) && Represents(j, kv, store) && Fits(j, Sudo(c, H, store, UpdateState(header)).0)
    ensures var msg := UpdateState(header);
            && SudoBytes(j, c, H, kv, msg).1 == Sudo(c, H, store, msg).1
            && Represents(j, SudoBytes(j, c, H, kv, msg).0, Sudo(c, H, store, msg).0)
  {
    hide Represents, Inverts, ReadClient, ReadConsensus, CheckUpdateHeader, SaveClient, WithConsensus, Verify,
      CheckMisbehaviour, EncodeWasmClientState, EncodeWasmConsensusState, Stored;
    RepresentsClient(j, kv, store);
    var client := store.client.value;
    if header.None? {
      ReadsBack(j, kv, store, Height(0, 0));
    } else {
      var h := header.value;
      ReadsBack(j, kv, store, h.height);
      var local := if h.height in store.consensus then map[h.height := store.consensus[h.height]] else map[];
      UpdateIsLocal(c, local, store.consensus, client.0, h);
      var checked := CheckUpdateHeader(c, store.consensus, client.0, h);
      if checked.Ok? {
        var st := Stored(h, checked.value);
        var client' := (client.0.(latestHeight := h.height), client.1);
        var next := Sudo(c, H, store, UpdateState(header)).0;
        assert h.height in next.consensus && next.consensus[h.height] == st;
        ConsensusSaved(j, kv, store, h.height, st);
        ClientSaved(j, WithConsensus(kv, h.height, j.consensus(st)),
                    store.(consensus := store.consensus[h.height := st]), client');
      }
    }
  }

  lemma RepresentsClient(j: Json, kv: Storage, store: Store)
    requires Represents(j, kv, store)
    ensures store.client.Some?
  {
  }

  lemma MisbehaviourRefines(j: Json, c: Crypto, H: Hasher, kv: Storage, store: Store, headers: Option<(Header, Header)>)
    requires Inverts(j) && Represents(j, kv, store) && Fits(j, Sudo(c, H, store, UpdateStateOnMisbehaviour(headers)).0)
    ensures var msg := UpdateStateOnMisbehaviour(headers);
            && SudoBytes(j, c, H, kv, msg).1 == Sudo(c, H, store, msg).1
            && Represents(j, SudoBytes(j, c, H, kv, msg).0, Sudo(c, H, store, msg).0)
  {
    hide Represents, Inverts, ReadClient, ReadConsensus, CheckUpdateHeader, SaveClient, Verify, CheckMisbehaviour,
      EncodeWasmClientState, EncodeWasmConsensusState;
    RepresentsClient(j, kv, store);
    ReadsBack(j, kv, store, Height(0, 0));
    var msg := UpdateStateOnMisbehaviour(headers);
    var next := Sudo(c, H, store, msg).0;
    if Sudo(c, H, store, msg).1.Ok? {
      ClientSaved(j, kv, store, next.client.value);
    }
  }

  /** Every call over storage answers as the call over values, and leaves the encoding of
      what that leaves. */
  lemma SudoBytesRefines(j: Json, c: Crypto, H: Hasher, kv: Storage, store: Store, msg: SudoMsg)
    requires Inverts(j) && Represents(j, kv, store) && Fits(j, Sudo(c, H, store, msg).0)
    ensures SudoBytes(j, c, H, kv, msg).1 == Sudo(c, H, store, msg).1
    ensures Represents(j, SudoBytes(j, c, H, kv, msg).0, Sudo(c, H, store, msg).0)
  {
    hide Represents, Inverts, ReadClient, ReadConsensus, CheckUpdateHeader, SaveClient, WithConsensus, Verify,
      CheckMisbehaviour, Fits;
    match msg
    case UpdateState(header) => UpdateRefines(j, c, H, kv, store, header);
    case UpdateStateOnMisbehaviour(headers) => MisbehaviourRefines(j, c, H, kv, store, headers);
    case VerifyMembership(height, proof, keyPath, value) =>
      ReadsBack(j, kv, store, height);
      var local := Store(None, if height in store.consensus then map[height := store.consensus[height]] else map[]);
      MembershipIsLocal(H, local, store, height, proof, keyPath, value);
    case _ =>
  }

  function RunBytes(j: Json, c: Crypto, H: Hasher, kv: Storage, msgs: seq<SudoMsg>): Storage {
    if msgs == [] then kv
    else SudoBytes(j, c, H, RunBytes(j, c, H, kv, msgs[..|msgs| - 1]), msgs[|msgs| - 1]).0
  }

  /** So every run over storage is the run over values: what is proved of the one holds of
      the other. */
  lemma {:induction false} RunBytesRefines(j: Json, c: Crypto, H: Hasher, kv: Storage, store: Store, msgs: seq<SudoMsg>)
    requires Inverts(j) && Represents(j, kv, store)
    requires forall i :: 0 <= i <= |msgs| ==> Fits(j, Run(c, H, store, msgs[..i]))
    ensures Represents(j, RunBytes(j, c, H, kv, msgs), Run(c, H, store, msgs))
    decreases |msgs|
  {
    if msgs != [] {
      hide Represents, Inverts, Fits, SudoBytes, Sudo;
      var n := |msgs| - 1;
      assert forall i :: 0 <= i <= n ==> msgs[..n][..i] == msgs[..i];
      assert msgs[..|msgs|] == msgs;
      RunBytesRefines(j, c, H, kv, store, msgs[..n]);
      SudoBytesRefines(j, c, H, RunBytes(j, c, H, kv, msgs[..n]), Run(c, H, store, msgs[..n]), msgs[n]);
    }
  }

  /** What `instantiate` writes stands for the instantiated values. */
  lemma InstantiateRepresents(j: Json, cs: ClientState, initial: ConsensusState, checksum: Bytes)
    requires Instantiated(cs, initial, checksum).Ok? && Fits(j, Instantiated(cs, initial, checksum).value)
    ensures Represents(j, SaveClient(j, WithConsensus(map[], cs.latestHeight, j.consensus(initial)), (cs, checksum)),
                       Instantiated(cs, initial, checksum).value)
  {
    hide LoadedClient, WithClient, WithConsensus, EncodeWasmClientState, EncodeWasmConsensusState;
    var h := cs.latestHeight;
    var kv := WithConsensus(map[], h, j.consensus(initial));
    assert h in Instantiated(cs, initial, checksum).value.consensus;
    LoadAfterSaveConsensus(map[], h, j.consensus(initial));
    LoadAfterSaveClient(kv, j.client(cs), checksum, h);
  }
}
