/** What every step of the node keeps, and what follows over whole runs. */
module NodeSafety {
  import opened Common
  import opened Chain
  import opened Node
  import P = PayloadStore

  // ----- the invariant -----

  /** A staged entry that equals real execution of `d` on top of its own parent. */
  ghost predicate StagedOk(m: Machine, g: App, d: Digest, s: Staged) {
    && d.Of?
    && var base := Executed(m, g, d.payload.parent);
       base.Some? && Simulate(m, base.value, d.payload) == Some(s)
  }

  /** `s` came from simulating `d` on the state after `base`, a block executed at or
      after the parent of `d`. */
  ghost predicate SimulatedOn(m: Machine, g: App, d: Digest, s: Staged, base: Digest) {
    && d.Of? && Ancestor(d.payload.parent, base)
    && Executed(m, g, base).Some? && Simulate(m, Executed(m, g, base).value, d.payload) == Some(s)
  }

  /** The same, for some block executed by now. */
  ghost predicate WasSimulated(m: Machine, g: App, d: Digest, s: Staged, last: Digest) {
    exists base :: Ancestor(base, last) && SimulatedOn(m, g, d, s, base)
  }

  ghost predicate CacheOk(m: Machine, g: App, staged: map<Digest, Staged>, sims: set<(Digest, Staged)>, last: Digest) {
    && (forall d <- staged :: WasSimulated(m, g, d, staged[d], last))
    && (forall x <- sims :: WasSimulated(m, g, x.0, x.1, last))
  }

  ghost predicate PendingOk(pending: map<Digest, Payload>) {
    forall d <- pending :: d == Of(pending[d])
  }

  /** The tip, and the committed state, are what executing the tip's chain gives. */
  ghost predicate TipOk(m: Machine, g: App, app: App, height: nat, last: Digest) {
    Executed(m, g, last) == Some(app) && height == app.height
  }

  ghost predicate TaskOk(last: Digest, height: nat, t: Task) {
    match t
    case Idle => true
    case Walking(target, tip, tipHeight, cursor, chain) =>
      && tip == last && tipHeight == height && target != tip
      && Ancestor(cursor, target) && PathFrom(cursor, target) == chain
      && (Ancestor(tip, target) ==> Ancestor(tip, cursor))
    case Executing(target, tip, tipHeight, chain, done) =>
      && target != tip && Ancestor(tip, last) && Ancestor(last, target)
      && done <= |chain| && tipHeight + done == height
      && Ancestor(tip, target) && PathFrom(tip, target) == chain
      && PathFrom(last, target) == chain[done..]
  }

  ghost predicate Inv(m: Machine, g: App, s: System) {
    && IsGenesis(g)
    && TipOk(m, g, s.node.app, s.node.height, s.node.last)
    && PendingOk(s.node.pending)
    && P.Valid(s.node.store)
    && CacheOk(m, g, s.node.staged, s.node.sims, s.node.last)
    && TaskOk(s.node.last, s.node.height, s.task)
  }

  lemma InitialInv(m: Machine, g: App, s: System)
    requires IsInitial(g, s)
    ensures Inv(m, g, s)
  {
  }

  /** A payload that is found is the one asked for. */
  lemma LookupMatches(n: Node, d: Digest)
    requires PendingOk(n.pending) && P.Valid(n.store)
    ensures Lookup(n, d).Some? ==> d == Of(Lookup(n, d).value)
  {
  }

  /** The first payload of a path, and the rest of it. */
  lemma {:induction false} PathHead(a: Digest, d: Digest)
    requires Ancestor(a, d) && a != d
    ensures var path := PathFrom(a, d);
            && path != []
            && path[0].parent == a
            && Ancestor(Of(path[0]), d)
            && PathFrom(Of(path[0]), d) == path[1..]
    decreases d
  {
    var parent := d.payload.parent;
    if a != parent {
      PathHead(a, parent);
      var head := Of(PathFrom(a, parent)[0]);
      assert PathFrom(a, d)[0] == PathFrom(a, parent)[0];
      if head == d {
        AncestorAntisymmetric(d, parent);
      }
    }
  }

  /** A path is empty exactly between a digest and itself. */
  lemma PathEmptyIff(a: Digest, d: Digest)
    requires Ancestor(a, d)
    ensures PathFrom(a, d) == [] <==> a == d
  {
  }

  lemma {:induction false} ParentDiffers(p: Payload)
    ensures p.parent != Of(p)
  {
    ChainSplits(p.parent, Of(p));
  }

  // ----- what each activity leaves alone -----

  lemma BufferedFrame(n: Node, p: Payload, solicited: bool, near: bool, victim: Digest)
    ensures var n' := Buffered(n, p, solicited, near, victim); n' == n.(pending := n'.pending)
  {
  }

  // ----- each step -----

  lemma WalkKeepsInv(m: Machine, g: App, s: System, ask: bool)
    requires Inv(m, g, s) && s.task.Walking?
    ensures Inv(m, g, PollWalk(s.node, s.task, ask))
  {
    var n, t := s.node, s.task;
    if t.cursor == t.tip {
      PathEmptyIff(t.tip, t.target);
    } else if Lookup(n, t.cursor).Some? {
      LookupMatches(n, t.cursor);
      var p := Lookup(n, t.cursor).value;
      if p.height > t.tipHeight {
        PathComposes(p.parent, t.cursor, t.target);
        ParentDiffers(p);
        assert PathFrom(p.parent, t.cursor) == PathFrom(p.parent, p.parent) + [p];
      }
    }
  }

  /** A longer executed chain keeps every finished simulation accounted for. */
  lemma SimulationStays(m: Machine, g: App, d: Digest, s: Staged, last: Digest, later: Digest)
    requires WasSimulated(m, g, d, s, last) && Ancestor(last, later)
    ensures WasSimulated(m, g, d, s, later)
  {
    hide SimulatedOn;
    var base :| Ancestor(base, last) && SimulatedOn(m, g, d, s, base);
    AncestorTransitive(base, last, later);
  }

  lemma AdvanceKeepsCache(m: Machine, g: App, staged: map<Digest, Staged>, sims: set<(Digest, Staged)>, last: Digest,
                          later: Digest)
    requires CacheOk(m, g, staged, sims, last) && Ancestor(last, later)
    ensures CacheOk(m, g, staged, sims, later)
  {
    hide WasSimulated, Ancestor;
    forall d <- staged
      ensures WasSimulated(m, g, d, staged[d], later)
    {
      SimulationStays(m, g, d, staged[d], last, later);
    }
    forall x <- sims
      ensures WasSimulated(m, g, x.0, x.1, later)
    {
      SimulationStays(m, g, x.0, x.1, last, later);
    }
  }

  /** Committing a child of the tip that passes both checks is one step of `Executed`. */
  lemma CommitKeepsTip(m: Machine, g: App, app: App, height: nat, p: Payload)
    requires TipOk(m, g, app, height, p.parent)
    requires p.height == height + 1 && p.stateRoot == m.root(app.kv)
    ensures Executed(m, g, Of(p)) == Commit(m, app, p, height + 1)
    ensures Commit(m, app, p, height + 1).Some? ==> Commit(m, app, p, height + 1).value.height == height + 1
  {
  }

  /** The next payload of the execution loop is the tip's child on the path. */
  lemma NextOnPath(last: Digest, height: nat, t: Task)
    requires t.Executing? && t.done < |t.chain| && TaskOk(last, height, t)
    ensures t.chain[t.done].parent == last && last != t.target
    ensures TaskOk(Of(t.chain[t.done]), height + 1, t.(done := t.done + 1))
  {
    var rest := t.chain[t.done..];
    PathEmptyIff(last, t.target);
    PathHead(last, t.target);
    assert rest[0] == t.chain[t.done] && rest[1..] == t.chain[t.done + 1..];
    AncestorTransitive(t.tip, last, Of(rest[0]));
  }

  lemma ExecuteKeepsInv(m: Machine, g: App, s: System, io: P.Io)
    requires Inv(m, g, s) && Enabled(s, ExecuteNext(io))
    ensures Inv(m, g, ExecuteBlock(m, s.node, s.task, io))
  {
    hide P.Valid, P.PutWith, P.Get, CacheOk, TaskOk, Commit, Executed;
    var n, t := s.node, s.task;
    var p := t.chain[t.done];
    NextOnPath(n.last, n.height, t);
    IdleOk(n.last, n.height);
    if p.height == t.tipHeight + 1 + t.done && p.stateRoot == m.root(n.app.kv) {
      TaskHeight(n.last, n.height, t);
      CommitKeepsTip(m, g, n.app, n.height, p);
      AdvanceKeepsCache(m, g, n.staged, n.sims, n.last, Of(p));
      P.PutKeepsValid(n.store, p, true, io);
    }
  }

  lemma IdleOk(last: Digest, height: nat)
    ensures TaskOk(last, height, Idle)
  {
  }

  lemma TaskHeight(last: Digest, height: nat, t: Task)
    requires t.Executing? && TaskOk(last, height, t)
    ensures t.tipHeight + t.done == height
  {
  }

  lemma CleanUpKeepsInv(m: Machine, g: App, s: System)
    requires Inv(m, g, s)
    ensures Inv(m, g, System(CleanUp(s.node), Idle))
  {
    hide P.Valid, P.PruneBelow;
    P.WithoutKeepsValid(s.node.store, SubSat(s.node.height, P.RETAIN_HEIGHTS));
  }

  /** A simulation runs on the current app, whatever tip its caller read. */
  lemma SimulateKeepsCache(m: Machine, g: App, n: Node, parent: Digest)
    requires CacheOk(m, g, n.staged, n.sims, n.last) && TipOk(m, g, n.app, n.height, n.last)
    requires parent.Of? && Ancestor(parent.payload.parent, n.last)
    ensures CacheOk(m, g, n.staged, n.sims + Results(parent, Simulate(m, n.app, parent.payload)), n.last)
  {
    hide Simulate, Executed;
    var r := Simulate(m, n.app, parent.payload);
    if r.Some? {
      assert Ancestor(n.last, n.last);
      assert SimulatedOn(m, g, parent, r.value, n.last);
    }
  }

  lemma CachingKeepsCache(m: Machine, g: App, n: Node, parent: Digest, st: Staged)
    requires CacheOk(m, g, n.staged, n.sims, n.last) && (parent, st) in n.sims
    ensures CacheOk(m, g, CacheStaged(n.staged, parent, st), n.sims, n.last)
  {
    hide WasSimulated;
  }

  lemma AdmitKeepsInv(m: Machine, g: App, s: System, p: Payload, solicited: bool, near: bool, victim: Digest)
    requires Inv(m, g, s)
    ensures Inv(m, g, s.(node := Buffered(s.node, p, solicited, near, victim)))
  {
    hide P.Valid, TipOk, TaskOk, CacheOk, IsGenesis, PendingOk, Decide;
    PendingStaysOk(s.node.pending, p, victim);
  }

  lemma PendingStaysOk(pending: map<Digest, Payload>, p: Payload, victim: Digest)
    requires PendingOk(pending)
    ensures PendingOk(pending[Of(p) := p]) && PendingOk((pending - {victim})[Of(p) := p])
  {
  }

  /** A restarted node resumes at exactly the tip it had executed. */
  lemma ResumeIsTip(m: Machine, g: App, n: Node)
    requires IsGenesis(g) && TipOk(m, g, n.app, n.height, n.last)
    ensures ResumeDigest(n.app) == n.last
  {
    ExecutedShape(m, g, n.last);
    LastOfChain(n.last);
  }

  lemma RestartKeepsInv(m: Machine, g: App, s: System, listing: seq<P.File>)
    requires Inv(m, g, s) && Enabled(s, Restart(listing))
    ensures Inv(m, g, System(Restarted(s.node, listing), Idle))
  {
    ResumeIsTip(m, g, s.node);
    if s.node.store.persistent {
      P.OpenedValid(s.node.store.dir, listing);
    }
  }

  /** Every step keeps the invariant. */
  lemma StepKeepsInv(m: Machine, g: App, s: System, e: Event)
    requires Inv(m, g, s) && Enabled(s, e)
    ensures Inv(m, g, Step(m, s, e))
  {
    hide P.Valid, P.PutWith, P.Get, TipOk, CacheOk, CacheStaged, Simulate, Buffered, Restarted, PollWalk, ExecuteBlock,
      CleanUp, Results;
    match e
    case FinalizeStart(_) =>
    case WalkPoll(ask) => WalkKeepsInv(m, g, s, ask);
    case WalkGiveUp =>
    case ExecuteNext(io) => ExecuteKeepsInv(m, g, s, io);
    case FinalizeEnd => CleanUpKeepsInv(m, g, s);
    case Observe(_) =>
    case TakeDigest(_) =>
    case TakeHeight(_) =>
    case Admit(p, solicited, near, victim) => AdmitKeepsInv(m, g, s, p, solicited, near, victim);
    case Insert(_) =>
    case Simulating(parent, _) => SimulateKeepsCache(m, g, s.node, parent);
    case Caching(parent, st) => CachingKeepsCache(m, g, s.node, parent, st);
    case CertifyPut(p, io) => P.PutKeepsValid(s.node.store, p, false, io);
    case Forget(_) =>
    case Request(_) =>
    case CheckMarks(_) =>
    case Mark(_, _) =>
    case Restart(listing) => RestartKeepsInv(m, g, s, listing);
  }

  lemma {:induction false} RunKeepsInv(m: Machine, g: App, s: System, events: seq<Event>)
    requires Inv(m, g, s) && IsRun(m, s, events)
    ensures Inv(m, g, After(m, s, events))
    decreases |events|
  {
    if events != [] {
      var k := |events| - 1;
      RunKeepsInv(m, g, s, events[..k]);
      StepKeepsInv(m, g, After(m, s, events[..k]), events[k]);
    }
  }
}
