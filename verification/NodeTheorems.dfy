/** The node's main results over every run: one executed history, agreement, and what a
    call of `finalize` does. */
module NodeTheorems {
  import opened Common
  import opened Chain
  import opened Node
  import opened NodeSafety
  import P = PayloadStore

  // ----- the executed history -----

  /** In every run the app's record of executed payloads is one parent-linked,
      height-contiguous chain from genesis to the tip, each block carrying the root of
      the state just before it. */
  lemma HistoryIsOneChain(m: Machine, g: App, s: System, events: seq<Event>)
    requires IsInitial(g, s) && IsRun(m, s, events)
    ensures var n := After(m, s, events).node; var chain := ChainOf(n.last);
            && Executed(m, g, n.last) == Some(n.app)
            && n.height == n.app.height == |chain|
            && (forall i :: 0 <= i < |chain| ==> GoodBlock(m, g, n.last, i))
            && (forall h :: h in n.app.payloads <==> 1 <= h <= n.height)
            && (forall h :: 1 <= h <= n.height ==> n.app.payloads[h] == chain[h - 1])
  {
    hide IsRun, After, GoodBlock;
    InitialInv(m, g, s);
    RunKeepsInv(m, g, s, events);
    ExecutedShape(m, g, After(m, s, events).node.last);
  }

  /** In every run the node's entries are those that running the blocks of its chain, each
      with its own transactions, height, time and proposer, made of the genesis entries. */
  lemma StateIsReplay(m: Machine, g: App, s: System, events: seq<Event>)
    requires IsInitial(g, s) && IsRun(m, s, events)
    ensures var n := After(m, s, events).node; var chain := ChainOf(n.last);
            && Replay(m, g.kv, chain) == Some(n.app.kv) && Executable(m, g, chain) && Bottom(n.last) == Genesis
            && n.app.timeNanos == (if chain == [] then g.timeNanos else chain[|chain| - 1].timeNanos)
  {
    hide IsRun, After, Executable, Replay;
    InitialInv(m, g, s);
    RunKeepsInv(m, g, s, events);
    ExecutedIff(m, g, After(m, s, events).node.last);
  }

  /** Agreement: two nodes of one genesis with the same tip digest have the same state,
      the same executed payloads and the same height, whatever else happened to them. */
  lemma SameTipSameState(m: Machine, g: App, s1: System, e1: seq<Event>, s2: System, e2: seq<Event>)
    requires IsInitial(g, s1) && IsRun(m, s1, e1)
    requires IsInitial(g, s2) && IsRun(m, s2, e2)
    requires After(m, s1, e1).node.last == After(m, s2, e2).node.last
    ensures After(m, s1, e1).node.app == After(m, s2, e2).node.app
    ensures After(m, s1, e1).node.height == After(m, s2, e2).node.height
  {
    hide IsRun, After;
    HistoryIsOneChain(m, g, s1, e1);
    HistoryIsOneChain(m, g, s2, e2);
  }

  // ----- where the tip comes from -----

  ghost predicate SameTip(n: Node, n': Node) {
    n'.app == n.app && n'.height == n.height && n'.last == n.last
  }

  lemma TipIsKept(m: Machine, t: System, e: Event)
    requires Enabled(t, e) && !e.Restart? && !e.ExecuteNext?
    ensures SameTip(t.node, Step(m, t, e).node)
  {
    hide P.PutWith, P.Get, P.PruneBelow, Simulate, CacheStaged, Buffered, Results;
    if e.Admit? {
      BufferedFrame(t.node, e.p, e.solicited, e.near, e.victim);
    }
  }

  /** Only the execution step of `finalize` moves the tip, and only to a child on the
      path to the digest being finalized. */
  lemma OnlyExecutionMovesTip(m: Machine, g: App, s: System, e: Event)
    requires Inv(m, g, s) && Enabled(s, e)
    ensures var n, n' := s.node, Step(m, s, e).node;
            || SameTip(n, n')
            || (e.ExecuteNext? && n'.last.Of? && n'.last.payload.parent == n.last && Ancestor(n'.last, s.task.target))
  {
    if e.ExecuteNext? {
      ExecutionMovesTip(m, g, s, e.io);
    } else if e.Restart? {
      RestartKeepsTip(m, g, s, e.listing);
    } else {
      hide Step, Enabled, Inv;
      TipIsKept(m, s, e);
    }
  }

  /** What one step of the execution loop does, exactly: the next block runs, with its own
      transactions, height, time and proposer, iff it is next in height, declares the root
      of the entries, does not go back in time and the app does not refuse it. */
  lemma BlockExecutesIff(m: Machine, g: App, s: System, io: P.Io)
    requires Inv(m, g, s) && Enabled(s, ExecuteNext(io))
    ensures var n, n', p := s.node, Step(m, s, ExecuteNext(io)).node, s.task.chain[s.task.done];
            var ran := m.run(n.app.kv, Block(p.txs, n.height + 1, p.timeNanos, p.proposer));
            && (n'.last == Of(p) <==>
                && p.height == n.height + 1 && p.stateRoot == m.root(n.app.kv)
                && p.timeNanos >= n.app.timeNanos && ran.Some?)
            && (n'.last == Of(p) ==>
                  ran == Some(n'.app.kv) && n'.height == n'.app.height == p.height && n'.app.timeNanos == p.timeNanos)
            && (n'.last != Of(p) ==> SameTip(n, n'))
  {
    hide P.Valid, P.PutWith, CacheOk, PendingOk, Executed;
    NextOnPath(s.node.last, s.node.height, s.task);
    TaskHeight(s.node.last, s.node.height, s.task);
    ParentDiffers(s.task.chain[s.task.done]);
  }

  lemma ExecutionMovesTip(m: Machine, g: App, s: System, io: P.Io)
    requires Inv(m, g, s) && Enabled(s, ExecuteNext(io))
    ensures var n, n' := s.node, Step(m, s, ExecuteNext(io)).node;
            || SameTip(n, n')
            || (n'.last.Of? && n'.last.payload.parent == n.last && Ancestor(n'.last, s.task.target))
  {
    hide P.Valid, P.PutWith, CacheOk, PendingOk, Executed, Commit;
    NextOnPath(s.node.last, s.node.height, s.task);
  }

  lemma RestartKeepsTip(m: Machine, g: App, s: System, listing: seq<P.File>)
    requires Inv(m, g, s) && Enabled(s, Restart(listing))
    ensures SameTip(s.node, Step(m, s, Restart(listing)).node)
  {
    hide P.Valid, P.Opened, P.IsListing, P.PayloadsAbove, CacheOk, PendingOk, TaskOk;
    ResumeIsTip(m, g, s.node);
  }

  /** Some `finalize` call of the run was for `d`. */
  ghost predicate Finalized(events: seq<Event>, d: Digest) {
    FinalizeStart(d) in events
  }

  /** A busy `finalize` works for a digest it was called with. */
  lemma {:induction false} TargetWasFinalized(m: Machine, s: System, events: seq<Event>)
    requires s.task.Idle? && IsRun(m, s, events)
    ensures var t := After(m, s, events).task; !t.Idle? ==> Finalized(events, t.target)
    decreases |events|
  {
    if events != [] {
      var k := |events| - 1;
      TargetWasFinalized(m, s, events[..k]);
      var before := After(m, s, events[..k]);
      assert events == events[..k] + [events[k]];
      TaskTargetStep(m, before, events[k]);
    }
  }

  lemma TaskTargetStep(m: Machine, s: System, e: Event)
    requires Enabled(s, e)
    ensures var t := Step(m, s, e).task;
            t.Idle? || (!s.task.Idle? && t.target == s.task.target && t.tip == s.task.tip) ||
            (e.FinalizeStart? && t.target == e.digest && t.tip == s.node.last)
  {
  }

  /** No block is executed unless it, or a descendant, was finalized. */
  lemma {:induction false} ExecutedWasFinalized(m: Machine, g: App, s: System, events: seq<Event>)
    requires IsInitial(g, s) && IsRun(m, s, events)
    ensures var last := After(m, s, events).node.last;
            last == Genesis || exists d :: Finalized(events, d) && Ancestor(last, d)
    decreases |events|
  {
    if events != [] {
      hide Step, Enabled, Inv;
      var k := |events| - 1;
      var e, before := events[k], After(m, s, events[..k]);
      assert events == events[..k] + [e];
      InitialInv(m, g, s);
      RunKeepsInv(m, g, s, events[..k]);
      ExecutedWasFinalized(m, g, s, events[..k]);
      OnlyExecutionMovesTip(m, g, before, e);
      if SameTip(before.node, Step(m, before, e).node) {
        if before.node.last != Genesis {
          var d :| Finalized(events[..k], d) && Ancestor(before.node.last, d);
          assert Finalized(events, d);
        }
      } else {
        TargetWasFinalized(m, s, events[..k]);
        EnabledExecute(before, e);
        assert Finalized(events, before.task.target);
      }
    }
  }

  lemma EnabledExecute(s: System, e: Event)
    requires Enabled(s, e) && e.ExecuteNext?
    ensures s.task.Executing?
  {
  }

  /** If all finalized digests of two nodes lie on one chain, their executed histories
      are comparable: one is a prefix of the other. */
  lemma HistoriesComparable(m: Machine, g: App, s1: System, e1: seq<Event>, s2: System, e2: seq<Event>, top: Digest)
    requires IsInitial(g, s1) && IsRun(m, s1, e1)
    requires IsInitial(g, s2) && IsRun(m, s2, e2)
    requires Ancestor(Genesis, top)
    requires forall d :: Finalized(e1, d) || Finalized(e2, d) ==> Ancestor(d, top)
    ensures var a, b := After(m, s1, e1).node.last, After(m, s2, e2).node.last;
            ChainOf(a) <= ChainOf(b) || ChainOf(b) <= ChainOf(a)
  {
    hide IsRun, After, Finalized;
    var a, b := After(m, s1, e1).node.last, After(m, s2, e2).node.last;
    ExecutedWasFinalized(m, g, s1, e1);
    ExecutedWasFinalized(m, g, s2, e2);
    if a != Genesis {
      var d :| Finalized(e1, d) && Ancestor(a, d);
      AncestorTransitive(a, d, top);
    }
    if b != Genesis {
      var d :| Finalized(e2, d) && Ancestor(b, d);
      AncestorTransitive(b, d, top);
    }
    AncestorsComparable(a, b, top);
    if Ancestor(a, b) {
      ChainSplits(a, b);
    } else {
      ChainSplits(b, a);
    }
  }

  /** The tip only grows: an earlier tip of a run is an ancestor of every later one,
      so a tip read before a lock was released is an ancestor of the current tip. */
  lemma {:induction false} TipOnlyGrows(m: Machine, g: App, s: System, events: seq<Event>)
    requires Inv(m, g, s) && IsRun(m, s, events)
    ensures Ancestor(s.node.last, After(m, s, events).node.last)
    decreases |events|
  {
    if events != [] {
      hide Step, Enabled, Inv;
      var k := |events| - 1;
      var before := After(m, s, events[..k]);
      RunKeepsInv(m, g, s, events[..k]);
      TipOnlyGrows(m, g, s, events[..k]);
      OnlyExecutionMovesTip(m, g, before, events[k]);
      AncestorTransitive(s.node.last, before.node.last, After(m, s, events).node.last);
    }
  }

  // ----- points of a run -----

  lemma {:induction false} PrefixRuns(m: Machine, s: System, events: seq<Event>, i: nat)
    requires IsRun(m, s, events) && i <= |events|
    ensures IsRun(m, s, events[..i])
    decreases |events|
  {
    hide Enabled;
    if i < |events| {
      assert events[..|events| - 1][..i] == events[..i];
      PrefixRuns(m, s, events[..|events| - 1], i);
    } else {
      assert events[..i] == events;
    }
  }

  /** The node before event `i`. */
  ghost function NodeAt(m: Machine, s: System, events: seq<Event>, i: nat): Node
    requires IsRun(m, s, events) && i <= |events|
  {
    PrefixRuns(m, s, events, i);
    After(m, s, events[..i]).node
  }

  lemma InvAt(m: Machine, g: App, s: System, events: seq<Event>, i: nat) returns (t: System)
    requires Inv(m, g, s) && IsRun(m, s, events) && i <= |events|
    ensures IsRun(m, s, events[..i]) && t == After(m, s, events[..i])
    ensures t.node == NodeAt(m, s, events, i) && Inv(m, g, t)
  {
    hide Inv, After;
    PrefixRuns(m, s, events, i);
    RunKeepsInv(m, g, s, events[..i]);
    t := After(m, s, events[..i]);
  }

  /** The tip only grows, between any two points of a run. */
  lemma {:induction false} TipGrowsBetween(m: Machine, g: App, s: System, events: seq<Event>, i: nat, j: nat)
    requires Inv(m, g, s) && IsRun(m, s, events) && i <= j <= |events|
    ensures Ancestor(NodeAt(m, s, events, i).last, NodeAt(m, s, events, j).last)
    decreases j
  {
    hide Step, Enabled, Inv, IsRun;
    if i < j {
      var before := InvAt(m, g, s, events, j - 1);
      var after := InvAt(m, g, s, events, j);
      TipGrowsBetween(m, g, s, events, i, j - 1);
      StepAt(m, s, events, j);
      OnlyExecutionMovesTip(m, g, before, events[j - 1]);
      AncestorTransitive(NodeAt(m, s, events, i).last, before.node.last, after.node.last);
    }
  }

  lemma StepAt(m: Machine, s: System, events: seq<Event>, j: nat)
    requires IsRun(m, s, events) && 0 < j <= |events|
    ensures IsRun(m, s, events[..j - 1]) && IsRun(m, s, events[..j])
    ensures Enabled(After(m, s, events[..j - 1]), events[j - 1])
    ensures After(m, s, events[..j]) == Step(m, After(m, s, events[..j - 1]), events[j - 1])
  {
    hide Step, Enabled;
    PrefixRuns(m, s, events, j - 1);
    PrefixRuns(m, s, events, j);
    assert events[..j][..j - 1] == events[..j - 1];
  }

  lemma RunGrows(m: Machine, s: System, events: seq<Event>, e: Event)
    requires IsRun(m, s, events) && Enabled(After(m, s, events), e)
    ensures IsRun(m, s, events + [e]) && After(m, s, events + [e]) == Step(m, After(m, s, events), e)
  {
    hide Step, Enabled;
    assert (events + [e])[..|events|] == events;
  }

  // ----- one call of finalize -----

  /** `events[i]` starts `finalize(d)`, and neither another call nor a restart follows. */
  ghost predicate IsCall(events: seq<Event>, i: nat, d: Digest) {
    && i < |events| && events[i] == FinalizeStart(d)
    && forall k :: i < k < |events| ==> !events[k].FinalizeStart? && !events[k].Restart?
  }

  /** What a call for `d` from tip `from` has done so far. */
  ghost predicate CallOk(from: Digest, d: Digest, s: System) {
    && (s.task.Idle? || (s.task.target == d && s.task.tip == from))
    && (s.node.last == from || (Ancestor(from, d) && Ancestor(from, s.node.last) && Ancestor(s.node.last, d)))
  }

  lemma StepKeepsCall(m: Machine, g: App, s: System, e: Event, from: Digest, d: Digest)
    requires Inv(m, g, s) && Enabled(s, e) && CallOk(from, d, s) && !e.FinalizeStart? && !e.Restart?
    ensures CallOk(from, d, Step(m, s, e))
  {
    hide Step, P.Valid, CacheOk, PendingOk, Executed;
    OnlyExecutionMovesTip(m, g, s, e);
    TaskTargetStep(m, s, e);
    if !SameTip(s.node, Step(m, s, e).node) {
      NextOnPath(s.node.last, s.node.height, s.task);
      AncestorTransitive(from, s.node.last, Step(m, s, e).node.last);
    }
  }

  lemma StartEstablishesCall(m: Machine, s: System, d: Digest)
    requires Enabled(s, FinalizeStart(d))
    ensures CallOk(s.node.last, d, Step(m, s, FinalizeStart(d)))
  {
  }

  /** `finalize(d)` refines path application: whatever runs in between, the blocks it
      executes are a prefix of the path from the tip it started from to `d`, oldest
      first and each once; off that path it executes nothing. */
  lemma {:induction false} FinalizeExecutesPrefix(m: Machine, g: App, s: System, events: seq<Event>, i: nat, d: Digest)
    requires Inv(m, g, s) && IsRun(m, s, events) && IsCall(events, i, d)
    requires IsRun(m, s, events[..i])
    ensures var from, now := After(m, s, events[..i]).node.last, After(m, s, events).node.last;
            && CallOk(from, d, After(m, s, events))
            && (now == from || (Ancestor(from, d) && Ancestor(from, now) && PathFrom(from, now) <= PathFrom(from, d)))
    decreases |events|
  {
    hide Step, Enabled, Inv;
    var k := |events| - 1;
    var before, e := After(m, s, events[..k]), events[k];
    if k == i {
      StartEstablishesCall(m, before, d);
    } else {
      assert events[..k][..i] == events[..i];
      FinalizeExecutesPrefix(m, g, s, events[..k], i, d);
      RunKeepsInv(m, g, s, events[..k]);
      StepKeepsCall(m, g, before, e, After(m, s, events[..i]).node.last, d);
    }
    var from, now := After(m, s, events[..i]).node.last, After(m, s, events).node.last;
    if now != from {
      PathComposes(from, now, d);
    }
  }

  /** What `finalize` returns at its last step. */
  function Returned(s: System, e: Event): Option<(nat, nat)> {
    if e.FinalizeEnd? && s.node.last.Of? then Some((s.node.height, s.node.last.payload.timeNanos)) else None
  }

  /** `finalize(d)` returns a value exactly when it moved the tip to `d`, and then the
      height and timestamp of `d`. */
  lemma ReturnsIffArrived(m: Machine, g: App, s: System, e: Event)
    requires Inv(m, g, s) && Enabled(s, e) && !e.Restart?
    requires !s.task.Idle? && Step(m, s, e).task.Idle?
    ensures var d := s.task.target; var last := Step(m, s, e).node.last;
            && (Returned(s, e).Some? <==> last == d)
            && (Returned(s, e).Some? ==>
                  d.Of? && Returned(s, e).value == (d.payload.height, d.payload.timeNanos) && s.task.tip != d)
  {
    hide P.Valid, P.PutWith, P.Get, P.PruneBelow, CacheOk, PendingOk;
    if s.task.Executing? {
      PathEmptyIff(s.node.last, s.task.target);
      if e.FinalizeEnd? {
        assert s.task.chain[s.task.done..] == [];
        PathHead(s.task.tip, s.task.target);
        HeightIsPosition(m, g, s.node.last);
      } else if e.ExecuteNext? {
        NextOnPath(s.node.last, s.node.height, s.task);
      }
    }
  }

  lemma WalkGoesOn(m: Machine, g: App, s: System, e: Event)
    requires Inv(m, g, s) && Enabled(s, e) && e.WalkPoll?
    requires Executed(m, g, s.task.target).Some? && Ancestor(s.task.tip, s.task.target)
    ensures !Step(m, s, e).task.Idle?
  {
    hide P.Valid, P.PutWith, P.Get, P.PruneBelow, CacheOk, Executed, Ancestor;
    var n, t := s.node, s.task;
    LookupMatches(n, t.cursor);
    ExecutedAncestor(m, g, t.cursor, t.target);
    ExecutedAncestor(m, g, t.tip, t.cursor);
    if t.cursor.Of? {
      HeightIsPosition(m, g, t.cursor);
    }
  }

  lemma NextLeadsToTarget(last: Digest, height: nat, t: Task)
    requires t.Executing? && t.done < |t.chain| && TaskOk(last, height, t)
    ensures Ancestor(Of(t.chain[t.done]), t.target) && t.chain[t.done].parent == last
    ensures t.tipHeight + t.done == height
  {
    NextOnPath(last, height, t);
  }

  lemma ExecutedStep(m: Machine, g: App, p: Payload, app: App)
    requires Executed(m, g, p.parent) == Some(app) && Executed(m, g, Of(p)).Some?
    ensures p.height == app.height + 1 && p.stateRoot == m.root(app.kv) && Commit(m, app, p, p.height).Some?
  {
    hide Commit;
  }

  lemma ExecutionGoesOn(m: Machine, g: App, s: System, e: Event)
    requires Inv(m, g, s) && Enabled(s, e) && e.ExecuteNext?
    requires Executed(m, g, s.task.target).Some?
    ensures !Step(m, s, e).task.Idle?
  {
    hide P.Valid, P.PutWith, P.Get, P.PruneBelow, CacheOk, TaskOk, PendingOk, Ancestor, PathFrom, Executed, Commit;
    var p := s.task.chain[s.task.done];
    NextLeadsToTarget(s.node.last, s.node.height, s.task);
    ExecutedAncestor(m, g, Of(p), s.task.target);
    ExecutedStep(m, g, p, s.node.app);
  }

  /** A call for an executable descendant of the tip stops early for one reason only: a
      payload on the path is still missing at the deadline. */
  lemma ExecutableNeverHalts(m: Machine, g: App, s: System, e: Event)
    requires Inv(m, g, s) && Enabled(s, e) && !e.Restart?
    requires !s.task.Idle? && Step(m, s, e).task.Idle?
    requires Executed(m, g, s.task.target).Some? && Ancestor(s.task.tip, s.task.target)
    ensures e.FinalizeEnd? || (e.WalkGiveUp? && Lookup(s.node, s.task.cursor).None?)
  {
    hide Inv, Executed, Ancestor, P.Valid, P.PutWith, P.Get, P.PruneBelow;
    if e.WalkPoll? {
      WalkGoesOn(m, g, s, e);
    } else if e.ExecuteNext? {
      ExecutionGoesOn(m, g, s, e);
    }
  }

  /** Replays change nothing: a call for a block already executed never gets to the
      execution loop. */
  lemma ReplayNeverExecutes(m: Machine, g: App, s: System)
    requires Inv(m, g, s) && !s.task.Idle? && Ancestor(s.task.target, s.task.tip)
    ensures s.task.Walking?
  {
    if s.task.Executing? {
      AncestorAntisymmetric(s.task.tip, s.task.target);
    }
  }
}
