/** The validator node between consensus and the application, as a state machine.

    A transition is what one critical section of the source changes; what a call read
    before is told by earlier points of the run. `finalize` holds its own lock throughout
    but awaits between lookups and between blocks, so it is split into small steps and
    every other activity may run in between. The same goes for staging, for the reception
    of peer payloads and for backfill ticks, which take one lock after another, and for
    `certify` and `verify`, which read at several points. */
module Node {
  import opened Common
  import opened Merkle
  import opened Chain
  import P = PayloadStore
  import Backfill

  const MAX_BLOCK_TXS: nat := 100
  const MAX_BLOCK_TX_BYTES: nat := 8 * 1024 * 1024
  const MAX_FUTURE_DRIFT_NANOS: nat := 2_000_000_000
  const EXECUTED_WALK_MAX: nat := 8_192
  const LOOKAHEAD: nat := 64
  const MAX_PENDING: nat := 16_384
  const SOLICITED_RESERVE: nat := 1_024
  const MAX_REQUESTED: nat := 65_536
  const STAGED_CAPACITY: nat := 16

  /** Post-state of an unexecuted parent, simulated and never committed. */
  datatype Staged = Staged(root: Hash, timeNanos: nat, height: nat)

  /** The fields of `LayerNode`, and `sims`: the simulations that running tasks have
      finished, whether or not their results are in the cache yet. */
  datatype Node = Node(
    app: App,
    height: nat,
    last: Digest,
    pending: map<Digest, Payload>,
    store: P.Disk,
    requested: set<Digest>,
    requestedHeights: map<nat, nat>,
    staged: map<Digest, Staged>,
    maxSeen: nat,
    sims: set<(Digest, Staged)>)

  // ----- lookups and requests -----

  /** `lookup_payload`: memory first, then disk. */
  function Lookup(n: Node, d: Digest): Option<Payload> {
    if d in n.pending then Some(n.pending[d]) else P.Get(n.store, d)
  }

  /** `request_payload`: remember the digest, forgetting all others at capacity. */
  function RequestPayload(n: Node, d: Digest): Node {
    n.(requested := (if |n.requested| >= MAX_REQUESTED then {} else n.requested) + {d})
  }

  // ----- proposal validity -----

  datatype Reject =
    | WrongParent | WrongHeight | WrongStateRoot | TimeNotAfterParent | TimeTooFarAhead
    | WrongProposer | TooManyTxs | TooManyTxBytes | StaleOrForked

  function TotalBytes(txs: seq<Bytes>): nat {
    if txs == [] then 0 else |txs[0]| + TotalBytes(txs[1..])
  }

  /** `validate_payload`. */
  function ValidatePayload(p: Payload, parent: Digest, expectedHeight: nat, expectedRoot: Hash,
                           parentTime: nat, now: nat, proposer: Bytes): Result<(), Reject> {
    if p.parent != parent then Err(WrongParent)
    else if p.height != expectedHeight then Err(WrongHeight)
    else if p.stateRoot != expectedRoot then Err(WrongStateRoot)
    else if p.timeNanos <= parentTime then Err(TimeNotAfterParent)
    else if p.timeNanos > AddSatU64(now, MAX_FUTURE_DRIFT_NANOS) then Err(TimeTooFarAhead)
    else if p.proposer != proposer then Err(WrongProposer)
    else if |p.txs| > MAX_BLOCK_TXS then Err(TooManyTxs)
    else if TotalBytes(p.txs) > MAX_BLOCK_TX_BYTES then Err(TooManyTxBytes)
    else Ok(())
  }

  /** `proposal_timestamp_nanos`. */
  function ProposalTime(parentTime: nat, now: nat): nat {
    Max(now, AddSatU64(parentTime, 1))
  }

  // ----- speculation -----

  /** `App::simulate_finalize_block` on a payload, as `staged_parent` uses it. */
  function Simulate(m: Machine, app: App, p: Payload): Option<Staged> {
    match FinalizeBlock(m, app, BlockOf(p, p.height))
    case None => None
    case Some(next) => Some(Staged(m.root(next.kv), p.timeNanos, p.height))
  }

  function CacheStaged(cache: map<Digest, Staged>, d: Digest, s: Staged): map<Digest, Staged> {
    (if |cache| >= STAGED_CAPACITY then map[] else cache)[d := s]
  }

  /** What `staged_parent` answers for a parent it holds: the cached post-state, or a
      simulation on the app. */
  function StageResult(m: Machine, n: Node, parent: Digest, pp: Payload): Option<Staged> {
    if parent in n.staged then Some(n.staged[parent]) else Simulate(m, n.app, pp)
  }

  /** `staged_parent` with the tip its caller read. */
  function StageParent(m: Machine, n: Node, parent: Digest, tip: Digest): Option<Staged> {
    match Lookup(n, parent)
    case None => None
    case Some(pp) => if pp.parent != tip then None else StageResult(m, n, parent, pp)
  }

  /** What one poll of `verify` makes of the payload `p` it found, under the tip of `n` and
      with what `staged_parent` answered: the verdict, or `None` to keep waiting. */
  function Judge(m: Machine, n: Node, staged: Option<Staged>, p: Payload, parent: Digest, now: nat, leader: Bytes)
      : Option<Result<(), Reject>>
  {
    if n.last == parent then
      Some(ValidatePayload(p, parent, n.height + 1, m.root(n.app.kv), n.app.timeNanos, now, leader))
    else
      match staged
      case Some(s) => Some(ValidatePayload(p, parent, s.height + 1, s.root, s.timeNanos, now, leader))
      case None => if n.height >= p.height then Some(Err(StaleOrForked)) else None
  }

  /** The payload `propose` builds and makes available. */
  function Proposed(parent: Digest, basis: Staged, now: nat, proposer: Bytes, txs: seq<Bytes>): Payload {
    Payload(basis.height + 1, ProposalTime(basis.timeNanos, now), proposer, txs, parent, basis.root)
  }

  // ----- execution -----

  /** `execute_payload`: commit on top of the tip and advance it. */
  function ExecutePayload(m: Machine, n: Node, p: Payload, io: P.Io): Option<Node> {
    match Commit(m, n.app, p, n.height + 1)
    case None => None
    case Some(app') =>
      Some(n.(app := app', height := n.height + 1, last := Of(p), store := P.PutWith(n.store, p, true, io).0))
  }

  /** The end of a successful `finalize`: drop what is now stale. */
  function CleanUp(n: Node): Node {
    n.(pending := map d | d in n.pending && n.pending[d].height > n.height :: n.pending[d],
       store := P.PruneBelow(n.store, SubSat(n.height, P.RETAIN_HEIGHTS)))
  }

  // ----- admission of peer payloads -----

  datatype Admission =
    | Inserted(relay: bool)
    | AlreadyKnown
    | ExceedsLimits
    | AtOrBelowTip
    | BeyondLookahead
    | AtCapacity

  predicate WithinLimits(p: Payload) {
    |p.txs| <= MAX_BLOCK_TXS && TotalBytes(p.txs) <= MAX_BLOCK_TX_BYTES
  }

  /** At capacity, a solicited payload makes room for itself. */
  predicate MustEvict(n: Node, p: Payload, solicited: bool) {
    Of(p) !in n.pending && solicited && |n.pending| >= MAX_PENDING
  }

  /** An entry furthest above the tip. */
  predicate IsVictim(n: Node, v: Digest) {
    v in n.pending && forall d <- n.pending :: n.pending[d].height <= n.pending[v].height
  }

  /** The verdict of `accept_peer_relay` on a payload within limits and above the tip it
      read, once it holds the buffer: `solicited` says whether it used up a request mark,
      `near` whether its height is within the window it read. */
  function Decide(n: Node, p: Payload, solicited: bool, near: bool): Admission {
    if Of(p) in n.pending then AlreadyKnown
    else if solicited then Inserted(false)
    else if !near then BeyondLookahead
    else if |n.pending| >= MAX_PENDING - SOLICITED_RESERVE then AtCapacity
    else Inserted(true)
  }

  /** The buffer section of `accept_peer_relay`; at capacity `victim` makes room. */
  function Buffered(n: Node, p: Payload, solicited: bool, near: bool, victim: Digest): Node {
    if !Decide(n, p, solicited, near).Inserted? then n
    else
      var room := if |n.pending| >= MAX_PENDING then n.pending - {victim} else n.pending;
      n.(pending := room[Of(p) := p])
  }

  // ----- restart -----

  /** The executed tip a restarted node derives from its app. */
  function ResumeDigest(app: App): Digest {
    if app.height == 0 then Genesis
    else if app.height in app.payloads then Of(app.payloads[app.height])
    else Unknown(0)
  }

  /** `new` and `with_payload_store`: only the app and the files survive. */
  function Restarted(n: Node, listing: seq<P.File>): Node {
    var store := if n.store.persistent then P.Opened(n.store.dir, listing) else P.Disk(false, map[], map[], map[]);
    var recovered := P.PayloadsAbove(store, n.app.height);
    Node(n.app, n.app.height, ResumeDigest(n.app), map d | d in (set p | p in recovered :: Of(p)) :: d.payload,
         store, {}, map[], map[], n.app.height, {})
  }

  // ----- the system -----

  /** Where `finalize` is. The walk keeps the payloads found so far oldest first. */
  datatype Task =
    | Idle
    | Walking(target: Digest, tip: Digest, tipHeight: nat, cursor: Digest, chain: seq<Payload>)
    | Executing(target: Digest, tip: Digest, tipHeight: nat, chain: seq<Payload>, done: nat)

  datatype System = System(node: Node, task: Task)

  datatype Event =
    // steps of finalize
    | FinalizeStart(digest: Digest)
    | WalkPoll(ask: bool)
    | WalkGiveUp
    | ExecuteNext(io: P.Io)
    | FinalizeEnd
    // everything else
    | Observe(h: nat)
    | TakeDigest(d: Digest)
    | TakeHeight(h: nat)
    | Admit(p: Payload, solicited: bool, near: bool, victim: Digest)
    | Insert(p: Payload)
    | Simulating(parent: Digest, tip: Digest)
    | Caching(parent: Digest, st: Staged)
    | CertifyPut(p: Payload, cio: P.Io)
    | Forget(d: Digest)
    | Request(d: Digest)
    | CheckMarks(now: nat)
    | Mark(range: Backfill.Range, stamp: nat)
    | Restart(listing: seq<P.File>)

  /** When an event can happen. A victim is a maximal entry. A parent is simulated once
      its payload was found to extend the tip its caller read, which was the tip at this
      or an earlier point; a result is cached once it was computed. A payload leaves
      the pending buffer before it executes, and may do so on its own. */
  predicate Enabled(s: System, e: Event) {
    match e
    case FinalizeStart(_) => s.task.Idle?
    case WalkPoll(_) => s.task.Walking?
    case WalkGiveUp => s.task.Walking? && s.task.cursor != s.task.tip && Lookup(s.node, s.task.cursor).None?
    case ExecuteNext(_) => s.task.Executing? && s.task.done < |s.task.chain|
    case FinalizeEnd => s.task.Executing? && s.task.done >= |s.task.chain|
    case Admit(p, solicited, _, victim) =>
      WithinLimits(p) && (MustEvict(s.node, p, solicited) ==> IsVictim(s.node, victim))
    case Simulating(parent, tip) => parent.Of? && parent.payload.parent == tip && Ancestor(tip, s.node.last)
    case Caching(parent, st) => (parent, st) in s.node.sims
    case Restart(listing) => s.node.store.persistent ==> P.IsListing(s.node.store.dir, listing)
    case _ => true
  }

  function Results(parent: Digest, r: Option<Staged>): set<(Digest, Staged)> {
    if r.Some? then {(parent, r.value)} else {}
  }

  function HeldHeights(n: Node): set<nat> {
    (set d | d in n.pending :: n.pending[d].height) + n.store.byHeight.Keys
  }

  /** One poll of the walk: arrived, found a payload, or wait for it; the request is
      repeated only now and then, so whether this poll asks is part of the event. */
  function PollWalk(n: Node, t: Task, ask: bool): System
    requires t.Walking?
  {
    if t.cursor == t.tip then System(n, Executing(t.target, t.tip, t.tipHeight, t.chain, 0))
    else
      match Lookup(n, t.cursor)
      case None => System(if ask then RequestPayload(n, t.cursor) else n, t)
      case Some(p) =>
        if p.height <= t.tipHeight then System(n, Idle)
        else System(n, t.(cursor := p.parent, chain := [p] + t.chain))
  }

  /** One block of the execution loop, with its two fail-stop checks. */
  function ExecuteBlock(m: Machine, n: Node, t: Task, io: P.Io): System
    requires t.Executing? && t.done < |t.chain|
  {
    var p := t.chain[t.done];
    if p.height != t.tipHeight + 1 + t.done then System(n, Idle)
    else if p.stateRoot != m.root(n.app.kv) then System(n, Idle)
    else
      var n1 := n.(pending := n.pending - {Of(p)});
      match ExecutePayload(m, n1, p, io)
      case None => System(n1, Idle)
      case Some(n2) => System(n2, t.(done := t.done + 1))
  }

  function Step(m: Machine, s: System, e: Event): System
    requires Enabled(s, e)
  {
    var n := s.node;
    match e
    case FinalizeStart(d) => if d == n.last then s else s.(task := Walking(d, n.last, n.height, d, []))
    case WalkPoll(ask) => PollWalk(n, s.task, ask)
    case WalkGiveUp => s.(task := Idle)
    case ExecuteNext(io) => ExecuteBlock(m, n, s.task, io)
    case FinalizeEnd => System(CleanUp(n), Idle)
    case Observe(h) => s.(node := n.(maxSeen := Max(n.maxSeen, h)))
    case TakeDigest(d) => s.(node := n.(requested := n.requested - {d}))
    case TakeHeight(h) => s.(node := n.(requestedHeights := n.requestedHeights - {h}))
    case Admit(p, solicited, near, victim) => s.(node := Buffered(n, p, solicited, near, victim))
    case Insert(p) => s.(node := n.(pending := n.pending[Of(p) := p]))
    case Simulating(parent, _) => s.(node := n.(sims := n.sims + Results(parent, Simulate(m, n.app, parent.payload))))
    case Caching(parent, st) => s.(node := n.(staged := CacheStaged(n.staged, parent, st)))
    case CertifyPut(p, io) => s.(node := n.(store := P.PutWith(n.store, p, false, io).0))
    case Forget(d) => s.(node := n.(pending := n.pending - {d}))
    case Request(d) => s.(node := RequestPayload(n, d))
    case CheckMarks(now) => s.(node := n.(requestedHeights := Backfill.Retained(n.requestedHeights, now)))
    case Mark(range, stamp) =>
      s.(node := n.(requestedHeights :=
           Backfill.MarkAll(n.requestedHeights, Backfill.Heights(range), stamp)))
    case Restart(listing) => System(Restarted(n, listing), Idle)
  }

  /** A run: every event is enabled in the state the previous ones lead to. */
  ghost predicate IsRun(m: Machine, s: System, events: seq<Event>)
    decreases |events|, 0
  {
    events != [] ==>
      && IsRun(m, s, events[..|events| - 1])
      && Enabled(After(m, s, events[..|events| - 1]), events[|events| - 1])
  }

  ghost function After(m: Machine, s: System, events: seq<Event>): System
    requires IsRun(m, s, events)
    decreases |events|, 1
  {
    if events == [] then s else Step(m, After(m, s, events[..|events| - 1]), events[|events| - 1])
  }

  ghost predicate IsInitial(g: App, s: System) {
    && IsGenesis(g) && s.task.Idle?
    && s.node.app == g && s.node.height == 0 && s.node.last == Genesis
    && s.node.pending == map[] && s.node.requested == {} && s.node.requestedHeights == map[]
    && s.node.staged == map[] && s.node.sims == {} && P.Valid(s.node.store)
  }
}
