/** Speculation on a parent that is certified but not executed, and the verdicts and
    proposals built on it. */
module NodeStaging {
  import opened Common
  import opened Chain
  import opened Node
  import opened NodeSafety
  import opened NodeTheorems
  import P = PayloadStore

  // ----- what a staged value is -----

  /** `st` is what really executing `parent` on top of the node's tip leads to. */
  ghost predicate IsPostState(m: Machine, n: Node, parent: Digest, st: Staged) {
    && parent.Of? && parent.payload.parent == n.last
    && var next := Commit(m, n.app, parent.payload, n.height + 1);
       && next.Some?
       && st == Staged(m.root(next.value.kv), next.value.timeNanos, next.value.height)
       && next.value.height == n.height + 1
  }

  /** A simulation succeeds only on the state just below the height its payload claims. */
  lemma SimulatedBelow(m: Machine, app: App, p: Payload)
    requires Simulate(m, app, p).Some?
    ensures p.height == app.height + 1
  {
  }

  /** A finished simulation is the real post-state iff its payload claims the height just
      above its own parent. */
  lemma SimulationSoundIff(m: Machine, g: App, d: Digest, st: Staged, base: Digest)
    requires IsGenesis(g) && SimulatedOn(m, g, d, st, base)
    ensures Executed(m, g, d.payload.parent).Some?
    ensures StagedOk(m, g, d, st) <==> d.payload.height == |ChainOf(d.payload.parent)| + 1
  {
    hide Executed, Simulate;
    var parent := d.payload.parent;
    ExecutedAncestor(m, g, parent, base);
    SelfAncestor(base);
    ExecutedAncestor(m, g, base, base);
    SimulatedBelow(m, Executed(m, g, base).value, d.payload);
    if StagedOk(m, g, d, st) {
      SimulatedBelow(m, Executed(m, g, parent).value, d.payload);
    }
  }

  lemma SelfAncestor(d: Digest)
    ensures Ancestor(d, d)
  {
  }

  lemma BaseOf(m: Machine, g: App, d: Digest, st: Staged, last: Digest) returns (base: Digest)
    requires WasSimulated(m, g, d, st, last)
    ensures Ancestor(base, last) && SimulatedOn(m, g, d, st, base)
  {
    base :| Ancestor(base, last) && SimulatedOn(m, g, d, st, base);
  }

  lemma SimulatedAtTip(m: Machine, g: App, n: Node, parent: Digest, st: Staged, base: Digest)
    requires TipOk(m, g, n.app, n.height, n.last) && SimulatedOn(m, g, parent, st, base)
    requires parent.payload.parent == n.last && Ancestor(base, n.last)
    ensures IsPostState(m, n, parent, st) && parent.payload.height == n.height + 1
  {
    AncestorAntisymmetric(base, n.last);
  }

  // ----- one staging -----

  /** One call of `staged_parent`. The tip is read before event `i`, the parent's payload
      before `j`, the cache before `k` and, on a miss, the app before `l`. */
  ghost function StageCall(m: Machine, s: System, events: seq<Event>, parent: Digest, i: nat, j: nat, k: nat, l: nat)
      : Option<Staged>
    requires IsRun(m, s, events) && i <= j <= k <= l <= |events|
  {
    match Lookup(NodeAt(m, s, events, j), parent)
    case None => None
    case Some(pp) =>
      if pp.parent != NodeAt(m, s, events, i).last then None
      else if parent in NodeAt(m, s, events, k).staged then Some(NodeAt(m, s, events, k).staged[parent])
      else Simulate(m, NodeAt(m, s, events, l).app, pp)
  }

  /** A proposer's staging, hit or fresh and however long ago its tip was read, answers
      the parent's real post-state iff the parent claims the height just above that
      tip. */
  lemma StagedSoundIffHeightFits(m: Machine, g: App, s: System, events: seq<Event>, parent: Digest,
                                 i: nat, j: nat, k: nat, l: nat)
    requires Inv(m, g, s) && IsRun(m, s, events) && i <= j <= k <= l <= |events|
    requires StageCall(m, s, events, parent, i, j, k, l).Some?
    ensures parent.Of?
    ensures StagedOk(m, g, parent, StageCall(m, s, events, parent, i, j, k, l).value) <==>
            parent.payload.height == NodeAt(m, s, events, i).height + 1
  {
    hide Inv, IsRun, After, NodeAt, Simulate, StagedOk, Lookup;
    var st := StageCall(m, s, events, parent, i, j, k, l).value;
    var atTip := InvAt(m, g, s, events, i);
    var atFind := InvAt(m, g, s, events, j);
    InvLookup(m, g, atFind, parent);
    TipHeight(m, g, atTip);
    var at := if parent in NodeAt(m, s, events, k).staged then k else l;
    var t := InvAt(m, g, s, events, at);
    TipGrowsBetween(m, g, s, events, i, at);
    var base := ResultOrCached(m, g, t, parent, st);
    InvGenesis(m, g, s);
    SimulationSoundIff(m, g, parent, st, base);
  }

  /** A staging under a tip that stays, as `verify` has it, cached or fresh, answers what
      really executing the parent on that tip leads to; the cache is never stale. */
  lemma StagedIsExecution(m: Machine, g: App, s: System, events: seq<Event>, parent: Digest,
                          i: nat, j: nat, k: nat, l: nat)
    requires Inv(m, g, s) && IsRun(m, s, events) && i <= j <= k <= l <= |events|
    requires NodeAt(m, s, events, i).last == NodeAt(m, s, events, l).last
    requires StageCall(m, s, events, parent, i, j, k, l).Some?
    ensures IsPostState(m, NodeAt(m, s, events, i), parent, StageCall(m, s, events, parent, i, j, k, l).value)
    ensures parent.payload.height == NodeAt(m, s, events, i).height + 1
  {
    hide Inv, IsRun, After, NodeAt, Simulate, Lookup, IsPostState, Ancestor, SimulatedOn;
    var st := StageCall(m, s, events, parent, i, j, k, l).value;
    var atTip := InvAt(m, g, s, events, i);
    var atFind := InvAt(m, g, s, events, j);
    InvLookup(m, g, atFind, parent);
    var at := if parent in NodeAt(m, s, events, k).staged then k else l;
    TipHeldBetween(m, g, s, events, i, at, l);
    var t := InvAt(m, g, s, events, at);
    SelfAncestor(t.node.last);
    var base := ResultOrCached(m, g, t, parent, st);
    InvTip(m, g, atTip);
    SimulatedAtTip(m, g, atTip.node, parent, st, base);
  }

  /** And the root it answers is that of running the parent on the tip's entries, as a block
      of its own transactions, height, time and proposer. */
  lemma StagedRootIsRun(m: Machine, g: App, s: System, events: seq<Event>, parent: Digest,
                        i: nat, j: nat, k: nat, l: nat)
    requires Inv(m, g, s) && IsRun(m, s, events) && i <= j <= k <= l <= |events|
    requires NodeAt(m, s, events, i).last == NodeAt(m, s, events, l).last
    requires StageCall(m, s, events, parent, i, j, k, l).Some?
    ensures parent.Of?
    ensures var n, p, st := NodeAt(m, s, events, i), parent.payload, StageCall(m, s, events, parent, i, j, k, l).value;
            var ran := m.run(n.app.kv, Block(p.txs, p.height, p.timeNanos, p.proposer));
            && p.parent == n.last && p.height == n.height + 1 && p.timeNanos >= n.app.timeNanos && ran.Some?
            && st == Staged(m.root(ran.value), p.timeNanos, p.height)
  {
    hide Inv, IsRun, After, NodeAt, StageCall;
    StagedIsExecution(m, g, s, events, parent, i, j, k, l);
    var t := InvAt(m, g, s, events, i);
    InvHeight(m, g, t);
  }

  /** A tip that is the same at two points was the same in between. */
  lemma TipHeldBetween(m: Machine, g: App, s: System, events: seq<Event>, i: nat, j: nat, l: nat)
    requires Inv(m, g, s) && IsRun(m, s, events) && i <= j <= l <= |events|
    requires NodeAt(m, s, events, i).last == NodeAt(m, s, events, l).last
    ensures SameTip(NodeAt(m, s, events, i), NodeAt(m, s, events, j))
  {
    hide Inv, IsRun, After, NodeAt;
    TipGrowsBetween(m, g, s, events, i, j);
    TipGrowsBetween(m, g, s, events, j, l);
    AncestorAntisymmetric(NodeAt(m, s, events, i).last, NodeAt(m, s, events, j).last);
    var a := InvAt(m, g, s, events, i);
    var b := InvAt(m, g, s, events, j);
    InvTip(m, g, a);
    InvTip(m, g, b);
  }

  lemma InvTip(m: Machine, g: App, s: System)
    requires Inv(m, g, s)
    ensures TipOk(m, g, s.node.app, s.node.height, s.node.last)
  {
  }

  lemma InvLookup(m: Machine, g: App, s: System, d: Digest)
    requires Inv(m, g, s)
    ensures Lookup(s.node, d).Some? ==> d == Of(Lookup(s.node, d).value)
  {
    LookupMatches(s.node, d);
  }

  lemma InvGenesis(m: Machine, g: App, s: System)
    requires Inv(m, g, s)
    ensures IsGenesis(g)
  {
  }

  lemma TipHeight(m: Machine, g: App, s: System)
    requires Inv(m, g, s)
    ensures s.node.height == |ChainOf(s.node.last)|
  {
    SelfAncestor(s.node.last);
    ExecutedAncestor(m, g, s.node.last, s.node.last);
  }

  lemma ResultOrCached(m: Machine, g: App, s: System, parent: Digest, st: Staged) returns (base: Digest)
    requires Inv(m, g, s) && parent.Of? && Ancestor(parent.payload.parent, s.node.last)
    requires || (parent in s.node.staged && s.node.staged[parent] == st)
             || Simulate(m, s.node.app, parent.payload) == Some(st)
    ensures Ancestor(base, s.node.last) && SimulatedOn(m, g, parent, st, base)
  {
    hide P.Valid, TaskOk, PendingOk, Simulate, Executed, Ancestor;
    if parent in s.node.staged && s.node.staged[parent] == st {
      base := BaseOf(m, g, parent, st, s.node.last);
    } else {
      base := s.node.last;
      SelfAncestor(base);
    }
  }

  /** A staged parent can commit exactly when it also declares the tip's state root;
      staging does not check that field. */
  lemma StagedCommitsIffRootMatches(m: Machine, g: App, s: System, pp: Payload)
    requires Inv(m, g, s) && pp.parent == s.node.last
    ensures Executed(m, g, Of(pp)).Some? <==>
            Simulate(m, s.node.app, pp).Some? && pp.stateRoot == m.root(s.node.app.kv)
  {
  }

  // ----- verdicts -----

  /** One poll of `verify` that found its payload: when it found it, when it took the tip,
      and when `staged_parent`, if called, read the parent, the cache and the app. */
  datatype Poll = Poll(found: nat, tip: nat, j: nat, k: nat, l: nat)

  /** The tip stays taken to the end of the poll. */
  ghost predicate IsPoll(m: Machine, s: System, events: seq<Event>, d: Digest, c: Poll)
    requires IsRun(m, s, events)
  {
    && c.found <= c.tip <= c.j <= c.k <= c.l <= |events|
    && d in NodeAt(m, s, events, c.found).pending
    && NodeAt(m, s, events, c.tip).last == NodeAt(m, s, events, c.l).last
  }

  ghost function StagedBy(m: Machine, s: System, events: seq<Event>, d: Digest, parent: Digest, c: Poll)
      : Option<Staged>
    requires IsRun(m, s, events) && IsPoll(m, s, events, d, c)
  {
    StageCall(m, s, events, parent, c.tip, c.j, c.k, c.l)
  }

  /** What the poll answers. */
  ghost function Verdict(m: Machine, s: System, events: seq<Event>, d: Digest, parent: Digest, now: nat,
                         leader: Bytes, c: Poll): Option<Result<(), Reject>>
    requires IsRun(m, s, events) && IsPoll(m, s, events, d, c)
  {
    Judge(m, NodeAt(m, s, events, c.tip), StagedBy(m, s, events, d, parent, c),
          NodeAt(m, s, events, c.found).pending[d], parent, now, leader)
  }

  /** The state a child of `parent` would execute on: the committed one when `parent` is
      the tip, else the one after `parent` commits on it. */
  function StateFor(m: Machine, n: Node, parent: Digest): Option<App> {
    if n.last == parent then Some(n.app)
    else if parent.Of? && parent.payload.parent == n.last then Commit(m, n.app, parent.payload, n.height + 1)
    else None
  }

  /** `parent` is the tip, or it is held, the next block, and executes. */
  predicate Available(m: Machine, n: Node, held: bool, parent: Digest) {
    || n.last == parent
    || (held && parent.Of? && parent.payload.height == n.height + 1 && StateFor(m, n, parent).Some?)
  }

  /** `p` is a block `leader` may propose at `now` on top of `parent` in state `base`. */
  predicate Proper(m: Machine, base: App, p: Payload, parent: Digest, now: nat, leader: Bytes) {
    && p.parent == parent && p.height == base.height + 1 && p.stateRoot == m.root(base.kv)
    && base.timeNanos < p.timeNanos <= AddSatU64(now, MAX_FUTURE_DRIFT_NANOS)
    && p.proposer == leader && WithinLimits(p)
  }

  lemma JudgeIff(m: Machine, n: Node, staged: Option<Staged>, p: Payload, parent: Digest, now: nat, leader: Bytes)
    requires n.height == n.app.height
    requires n.last != parent && staged.Some? ==> IsPostState(m, n, parent, staged.value)
    ensures Judge(m, n, staged, p, parent, now, leader) == Some(Ok(())) <==>
            && (n.last == parent || staged.Some?) && StateFor(m, n, parent).Some?
            && Proper(m, StateFor(m, n, parent).value, p, parent, now, leader)
  {
    hide TotalBytes;
  }

  lemma FoundIsDigest(m: Machine, g: App, s: System, events: seq<Event>, d: Digest, c: Poll)
    requires Inv(m, g, s) && IsRun(m, s, events) && IsPoll(m, s, events, d, c)
    ensures d == Of(NodeAt(m, s, events, c.found).pending[d])
  {
    hide IsRun, After;
    var t := InvAt(m, g, s, events, c.found);
  }

  /** Under a tip that stays, a parent can be staged iff it is available. */
  lemma StageableIffAvailable(m: Machine, g: App, s: System, events: seq<Event>, d: Digest, parent: Digest, c: Poll)
    requires Inv(m, g, s) && IsRun(m, s, events) && IsPoll(m, s, events, d, c)
    requires NodeAt(m, s, events, c.tip).last != parent
    ensures StagedBy(m, s, events, d, parent, c).Some? <==>
            Available(m, NodeAt(m, s, events, c.tip), Lookup(NodeAt(m, s, events, c.j), parent).Some?, parent)
  {
    hide Inv, IsRun, After, NodeAt, Lookup;
    var atFind := InvAt(m, g, s, events, c.j);
    InvLookup(m, g, atFind, parent);
    TipHeldBetween(m, g, s, events, c.tip, c.l, c.l);
    if StagedBy(m, s, events, d, parent, c).Some? {
      StagedIsExecution(m, g, s, events, parent, c.tip, c.j, c.k, c.l);
    }
  }

  /** `verify` accepts exactly the proper blocks on a parent that is available, whether it
      finds that parent committed, cached or has to simulate it. */
  lemma VerifyAcceptsIff(m: Machine, g: App, s: System, events: seq<Event>, d: Digest, parent: Digest, now: nat,
                         leader: Bytes, c: Poll)
    requires Inv(m, g, s) && IsRun(m, s, events) && IsPoll(m, s, events, d, c)
    ensures d.Of?
    ensures var n := NodeAt(m, s, events, c.tip);
            Verdict(m, s, events, d, parent, now, leader, c) == Some(Ok(())) <==>
            && Available(m, n, Lookup(NodeAt(m, s, events, c.j), parent).Some?, parent)
            && Proper(m, StateFor(m, n, parent).value, d.payload, parent, now, leader)
  {
    hide Inv, IsRun, After, NodeAt, Lookup, StageCall, IsPostState, Judge, Proper, StateFor;
    var t := InvAt(m, g, s, events, c.tip);
    FoundIsDigest(m, g, s, events, d, c);
    InvHeight(m, g, t);
    var staged := StagedBy(m, s, events, d, parent, c);
    if t.node.last != parent {
      StageableIffAvailable(m, g, s, events, d, parent, c);
      if staged.Some? {
        StagedIsExecution(m, g, s, events, parent, c.tip, c.j, c.k, c.l);
      }
    }
    JudgeIff(m, t.node, staged, d.payload, parent, now, leader);
    TipHasState(m, t.node, parent);
  }

  lemma TipHasState(m: Machine, n: Node, parent: Digest)
    ensures n.last == parent ==> StateFor(m, n, parent).Some?
  {
  }

  lemma InvHeight(m: Machine, g: App, s: System)
    requires Inv(m, g, s)
    ensures s.node.height == s.node.app.height && IsGenesis(g)
  {
  }

  /** The poll had a state to judge by: its parent was the tip, or staged. */
  ghost predicate Settled(m: Machine, s: System, events: seq<Event>, d: Digest, parent: Digest, c: Poll)
    requires IsRun(m, s, events) && IsPoll(m, s, events, d, c)
  {
    NodeAt(m, s, events, c.tip).last == parent || StagedBy(m, s, events, d, parent, c).Some?
  }

  /** The state after `parent`, if it claims the height above its own parent: that of its
      chain, whatever root it declares. */
  ghost function StateAfter(m: Machine, g: App, parent: Digest): Option<App> {
    if !parent.Of? then Executed(m, g, parent)
    else
      match Executed(m, g, parent.payload.parent)
      case None => None
      case Some(base) => Commit(m, base, parent.payload, base.height + 1)
  }

  lemma StateForIsAfter(m: Machine, g: App, n: Node, parent: Digest)
    requires TipOk(m, g, n.app, n.height, n.last) && StateFor(m, n, parent).Some?
    ensures StateFor(m, n, parent) == StateAfter(m, g, parent)
  {
    hide Commit;
  }

  /** The verdict by the state after the parent alone. */
  lemma SettledVerdict(m: Machine, g: App, s: System, events: seq<Event>, d: Digest, parent: Digest, now: nat,
                       leader: Bytes, c: Poll)
    requires Inv(m, g, s) && IsRun(m, s, events) && IsPoll(m, s, events, d, c)
    requires Settled(m, s, events, d, parent, c)
    ensures d.Of? && StateAfter(m, g, parent).Some?
    ensures var base := StateAfter(m, g, parent).value;
            Verdict(m, s, events, d, parent, now, leader, c) ==
            Some(ValidatePayload(d.payload, parent, base.height + 1, m.root(base.kv), base.timeNanos, now, leader))
  {
    hide Inv, IsRun, After, NodeAt, Lookup, StageCall, ValidatePayload, Commit, StateAfter;
    var t := InvAt(m, g, s, events, c.tip);
    FoundIsDigest(m, g, s, events, d, c);
    InvTip(m, g, t);
    if t.node.last != parent {
      StagedIsExecution(m, g, s, events, parent, c.tip, c.j, c.k, c.l);
    }
    StateForIsAfter(m, g, t.node, parent);
  }

  /** The verdict on a child is one and the same at every poll of a run that has a state to
      judge by: before its parent commits and after, from the cache or afresh. */
  lemma VerdictIsStable(m: Machine, g: App, s: System, events: seq<Event>, d: Digest, parent: Digest, now: nat,
                        leader: Bytes, c: Poll, c': Poll)
    requires Inv(m, g, s) && IsRun(m, s, events) && IsPoll(m, s, events, d, c) && IsPoll(m, s, events, d, c')
    requires Settled(m, s, events, d, parent, c) && Settled(m, s, events, d, parent, c')
    ensures Verdict(m, s, events, d, parent, now, leader, c) == Verdict(m, s, events, d, parent, now, leader, c')
  {
    hide *;
    SettledVerdict(m, g, s, events, d, parent, now, leader, c);
    SettledVerdict(m, g, s, events, d, parent, now, leader, c');
  }

  /** What `verify` accepts, the fail-stop checks of `finalize` accept: the payload has
      the next height and the root of the state its parent leads to, and only the block
      logic itself can still refuse it. */
  lemma VerifiedWouldExecute(m: Machine, g: App, s: System, events: seq<Event>, d: Digest, parent: Digest, now: nat,
                             leader: Bytes, c: Poll)
    requires Inv(m, g, s) && IsRun(m, s, events) && IsPoll(m, s, events, d, c)
    requires Verdict(m, s, events, d, parent, now, leader, c) == Some(Ok(()))
    ensures var n := NodeAt(m, s, events, c.tip); d.Of? && StateFor(m, n, parent).Some?
    ensures var p, base := d.payload, StateFor(m, NodeAt(m, s, events, c.tip), parent).value;
            && p.parent == parent && p.height == base.height + 1 && p.stateRoot == m.root(base.kv)
            && (Commit(m, base, p, p.height).Some? <==> m.run(base.kv, BlockOf(p, p.height)).Some?)
  {
    hide Inv, IsRun, After, NodeAt, Lookup, Verdict, IsPoll;
    VerifyAcceptsIff(m, g, s, events, d, parent, now, leader, c);
  }

  /** `verify` keeps waiting for a payload it found only if that is above the tip. */
  lemma VerifyWaitsOnlyAbove(m: Machine, g: App, s: System, events: seq<Event>, d: Digest, parent: Digest, now: nat,
                             leader: Bytes, c: Poll)
    requires Inv(m, g, s) && IsRun(m, s, events) && IsPoll(m, s, events, d, c)
    requires Verdict(m, s, events, d, parent, now, leader, c).None?
    ensures d.Of? && d.payload.height > NodeAt(m, s, events, c.tip).height
  {
    hide Inv, IsRun, After, NodeAt, StageCall, ValidatePayload;
    FoundIsDigest(m, g, s, events, d, c);
  }

  /** A payload refused as stale or forked, unless it is executed already, is never
      executed later. */
  lemma StaleVerdictIsFinal(m: Machine, g: App, s: System, events: seq<Event>, d: Digest, parent: Digest, now: nat,
                            leader: Bytes, c: Poll, i: nat)
    requires Inv(m, g, s) && IsRun(m, s, events) && IsPoll(m, s, events, d, c) && c.tip <= i <= |events|
    requires Verdict(m, s, events, d, parent, now, leader, c) == Some(Err(StaleOrForked))
    ensures Ancestor(d, NodeAt(m, s, events, i).last) ==> Ancestor(d, NodeAt(m, s, events, c.tip).last)
  {
    hide Inv, IsRun, After, NodeAt, Lookup, StageCall, Executed, Ancestor, Judge;
    var tip := InvAt(m, g, s, events, c.tip);
    var later := InvAt(m, g, s, events, i);
    FoundIsDigest(m, g, s, events, d, c);
    StaleIsLow(m, tip.node, StagedBy(m, s, events, d, parent, c), d.payload, parent, now, leader);
    TipGrowsBetween(m, g, s, events, c.tip, i);
    InvTip(m, g, tip);
    InvTip(m, g, later);
    InvHeight(m, g, tip);
    if Ancestor(d, later.node.last) {
      LowIsBelow(m, g, d, tip.node.last, later.node.last);
    }
  }

  lemma StaleIsLow(m: Machine, n: Node, staged: Option<Staged>, p: Payload, parent: Digest, now: nat, leader: Bytes)
    requires Judge(m, n, staged, p, parent, now, leader) == Some(Err(StaleOrForked))
    ensures p.height <= n.height
  {
    hide TotalBytes;
  }

  /** A block on a chain that is no higher than a point of it lies below that point. */
  lemma LowIsBelow(m: Machine, g: App, d: Digest, tip: Digest, later: Digest)
    requires IsGenesis(g) && Executed(m, g, tip).Some? && Executed(m, g, later).Some?
    requires Ancestor(d, later) && Ancestor(tip, later) && d.Of? && d.payload.height <= Executed(m, g, tip).value.height
    ensures Ancestor(d, tip)
  {
    hide Executed, Ancestor;
    AncestorsComparable(d, tip, later);
    if Ancestor(tip, d) {
      ExecutedAncestor(m, g, d, later);
      ExecutedAncestor(m, g, tip, d);
      HeightIsPosition(m, g, d);
      SelfAncestor(d);
    }
  }

  // ----- proposals -----

  /** What `propose` builds on: the committed state when `parent` is the tip, else what
      staging `parent` under a tip that stays answers. */
  ghost predicate IsBasis(m: Machine, n: Node, parent: Digest, basis: Staged) {
    if n.last == parent then basis == Staged(m.root(n.app.kv), n.app.timeNanos, n.app.height)
    else IsPostState(m, n, parent, basis)
  }

  /** The size that is capped is the sum over the transactions, none left out. */
  lemma {:induction false} SizeIsSum(a: seq<Bytes>, tx: Bytes, b: seq<Bytes>)
    ensures TotalBytes(a + [tx] + b) == TotalBytes(a) + |tx| + TotalBytes(b)
    decreases |a|
  {
    if a == [] {
      assert (a + [tx] + b)[1..] == b;
    } else {
      SizeIsSum(a[1..], tx, b);
      assert (a + [tx] + b)[1..] == a[1..] + [tx] + b;
    }
  }

  /** Propose, then verify: a block built on the state after its parent passes every poll of
      `verify` that has that parent exactly when the block time is strictly after the
      parent's and within the verifier's clock drift. */
  lemma OwnProposalVerifiesIffTimely(m: Machine, g: App, s: System, events: seq<Event>, parent: Digest, basis: Staged,
                                     now: nat, later: nat, leader: Bytes, txs: seq<Bytes>, c: Poll)
    requires Inv(m, g, s) && IsRun(m, s, events)
    requires |txs| <= MAX_BLOCK_TXS && TotalBytes(txs) <= MAX_BLOCK_TX_BYTES
    requires now <= U64_MAX && basis.timeNanos <= U64_MAX
    requires IsPoll(m, s, events, Of(Proposed(parent, basis, now, leader, txs)), c)
    requires var n := NodeAt(m, s, events, c.tip);
             && IsBasis(m, n, parent, basis)
             && Available(m, n, Lookup(NodeAt(m, s, events, c.j), parent).Some?, parent)
    ensures var p := Proposed(parent, basis, now, leader, txs);
            (Verdict(m, s, events, Of(p), parent, later, leader, c) == Some(Ok(()))) <==>
            (now > basis.timeNanos || basis.timeNanos < U64_MAX) &&
            Max(now, basis.timeNanos + 1) <= AddSatU64(later, MAX_FUTURE_DRIFT_NANOS)
  {
    hide Inv, IsRun, After, NodeAt, Lookup, Verdict, IsPoll, TotalBytes, Available;
    VerifyAcceptsIff(m, g, s, events, Of(Proposed(parent, basis, now, leader, txs)), parent, later, leader, c);
  }

  /** Propose, then execute: a block built on the state its parent leads to executes iff the
      app runs the transactions it was given, and leads to what they make of that state. */
  lemma OwnProposalExecutesIff(m: Machine, g: App, parent: Digest, app: App, now: nat, leader: Bytes, txs: seq<Bytes>)
    requires Executed(m, g, parent) == Some(app) && now <= U64_MAX && app.timeNanos <= U64_MAX
    ensures var p := Proposed(parent, Staged(m.root(app.kv), app.timeNanos, app.height), now, leader, txs);
            var time := if now > app.timeNanos then now else Min(app.timeNanos + 1, U64_MAX);
            var ran := m.run(app.kv, Block(txs, app.height + 1, time, leader));
            && (Executed(m, g, Of(p)).Some? <==> ran.Some?)
            && (ran.Some? ==> Executed(m, g, Of(p)) ==
                              Some(App(ran.value, app.height + 1, time, app.payloads[app.height + 1 := p])))
  {
  }
}
