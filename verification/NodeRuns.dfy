/** Runs of the machine as the methods of the node perform them: how a run grows, what the
    node was at its points, and what a call is, from the nodes it read. */
module NodeRuns {
  import opened Common
  import opened Chain
  import opened Node
  import opened NodeSafety
  import opened NodeTheorems
  import opened NodeStaging
  import opened NodeCertify
  import opened NodeBuffers
  import P = PayloadStore
  import Backfill

  /** A step of a task other than the one `finalize` call there is; no restart. */
  predicate IsOther(e: Event) {
    || e.Observe? || e.TakeDigest? || e.TakeHeight? || e.Admit? || e.Insert? || e.Simulating? || e.Caching?
    || e.CertifyPut? || e.Forget? || e.Request? || e.CheckMarks? || e.Mark?
  }

  /** What other tasks may do while one awaits: anything but restart the node; all that
      leaves the tip alone, if it holds the tip; or, if it is the `finalize` call, all but
      the steps of that. */
  datatype Mode = Free | TipHeld | Alone

  predicate Allowed(mode: Mode, e: Event) {
    match mode
    case Free => !e.Restart?
    case TipHeld => !e.Restart? && !e.ExecuteNext?
    case Alone => IsOther(e)
  }

  /** `trace` is a run from `s` to `t`. */
  ghost predicate Reaches(m: Machine, s: System, trace: seq<Event>, t: System) {
    IsRun(m, s, trace) && After(m, s, trace) == t
  }

  lemma ReachesRun(m: Machine, s: System, trace: seq<Event>, t: System)
    requires Reaches(m, s, trace, t)
    ensures IsRun(m, s, trace)
  {
  }

  lemma ReachesNext(m: Machine, s: System, trace: seq<Event>, t: System, e: Event)
    requires Reaches(m, s, trace, t) && Enabled(t, e)
    ensures Reaches(m, s, trace + [e], Step(m, t, e))
  {
    hide Step, Enabled;
    RunGrows(m, s, trace, e);
  }

  lemma OtherKeepsTask(m: Machine, t: System, e: Event)
    requires Enabled(t, e) && IsOther(e)
    ensures Step(m, t, e).task == t.task
  {
    hide Buffered, P.PutWith, Simulate, CacheStaged, RequestPayload, Backfill.Retained, Backfill.MarkAll;
  }

  lemma SimsGrow(m: Machine, t: System, e: Event)
    requires Enabled(t, e) && !e.Restart?
    ensures t.node.sims <= Step(m, t, e).node.sims
  {
    hide P.PutWith, P.Get, P.PruneBelow, Simulate, CacheStaged, Backfill.Retained, Backfill.MarkAll, Commit, Buffered,
      Results;
    if e.Admit? {
      BufferedFrame(t.node, e.p, e.solicited, e.near, e.victim);
    }
  }

  /** Before event `i` of the run `trace` the node was `n`. */
  ghost predicate Was(m: Machine, s: System, trace: seq<Event>, i: nat, n: Node) {
    IsRun(m, s, trace) && i <= |trace| && NodeAt(m, s, trace, i) == n
  }

  lemma WasNow(m: Machine, s: System, trace: seq<Event>, t: System)
    requires Reaches(m, s, trace, t)
    ensures Was(m, s, trace, |trace|, t.node)
  {
    assert trace[..|trace|] == trace;
  }

  lemma WasStill(m: Machine, s: System, before: seq<Event>, trace: seq<Event>, i: nat, n: Node, t: System)
    requires Was(m, s, before, i, n) && before <= trace && Reaches(m, s, trace, t)
    ensures Was(m, s, trace, i, n)
  {
    assert trace[..i] == before[..i];
  }

  lemma RunInv(m: Machine, g: App, s: System, trace: seq<Event>, t: System)
    requires Inv(m, g, s) && Reaches(m, s, trace, t)
    ensures Inv(m, g, t)
  {
    hide Inv;
    RunKeepsInv(m, g, s, trace);
  }

  lemma TipWasEarlier(m: Machine, g: App, s: System, trace: seq<Event>, i: nat, n: Node, t: System)
    requires Inv(m, g, s) && Was(m, s, trace, i, n) && Reaches(m, s, trace, t)
    ensures Ancestor(n.last, t.node.last)
  {
    hide Inv;
    WasNow(m, s, trace, t);
    TipGrowsBetween(m, g, s, trace, i, |trace|);
  }

  /** What one staging answers, from the nodes it read. */
  lemma StageCallIs(m: Machine, s: System, trace: seq<Event>, parent: Digest, i: nat, tip: Node, j: nat, found: Node,
                    k: nat, cache: Node, l: nat, base: Node)
    requires i <= j <= k <= l && Was(m, s, trace, i, tip) && Was(m, s, trace, j, found)
    requires Was(m, s, trace, k, cache) && Was(m, s, trace, l, base)
    ensures StageCall(m, s, trace, parent, i, j, k, l) ==
            match Lookup(found, parent)
            case None => None
            case Some(pp) =>
              if pp.parent != tip.last then None
              else if parent in cache.staged then Some(cache.staged[parent])
              else Simulate(m, base.app, pp)
  {
    hide NodeAt, Lookup, Simulate, IsRun;
  }

  /** What one poll of `verify` is, from the nodes it read. */
  lemma PollIs(m: Machine, s: System, trace: seq<Event>, d: Digest, parent: Digest, now: nat, leader: Bytes, c: Poll,
               found: Node, tip: Node)
    requires c.found <= c.tip <= c.j <= c.k <= c.l && Was(m, s, trace, c.found, found) && Was(m, s, trace, c.tip, tip)
    requires d in found.pending && c.l <= |trace| && NodeAt(m, s, trace, c.l).last == tip.last
    ensures IsPoll(m, s, trace, d, c)
    ensures Verdict(m, s, trace, d, parent, now, leader, c) ==
            Judge(m, tip, StageCall(m, s, trace, parent, c.tip, c.j, c.k, c.l), found.pending[d], parent, now, leader)
  {
    hide NodeAt, StageCall, Judge, IsRun;
  }

  /** What one arrival is, from the nodes it read. */
  lemma ArrivalIs(m: Machine, s: System, trace: seq<Event>, p: Payload, c: Arrival, tip: Node, seen: Node, asked: Node,
                  marked: Node, offered: Node, near: bool, solicited: bool, victim: Digest)
    requires InOrder(trace, p, c) && WithinLimits(p) && p.height > tip.height
    requires Was(m, s, trace, c.tipAt, tip) && Was(m, s, trace, c.seenAt, seen) && Was(m, s, trace, c.digest, asked)
    requires Was(m, s, trace, c.height, marked) && Was(m, s, trace, c.offered, offered)
    requires c.digest < c.height <==> Of(p) !in asked.requested
    requires near == (p.height <= seen.maxSeen || p.height <= tip.height + LOOKAHEAD)
    requires solicited == (Of(p) in asked.requested || p.height in marked.requestedHeights)
    requires trace[c.offered] == Admit(p, solicited, near, victim)
    ensures IsArrival(m, s, trace, p, c) && Reception(m, s, trace, p, c) == Decide(offered, p, solicited, near)
  {
    hide NodeAt, IsRun, WithinLimits, Decide;
  }

  /** What one tick is, from the nodes it read. */
  lemma TickIs(m: Machine, s: System, trace: seq<Event>, now: nat, c: Ticking, tip: Node, seen: Node, held: Node,
               checked: Node)
    requires Ticks(trace, now, c) && Was(m, s, trace, c.tipAt, tip) && Was(m, s, trace, c.seenAt, seen)
    requires Was(m, s, trace, c.heldAt, held) && Was(m, s, trace, c.checked, checked)
    requires Backfill.Flatten(RangesOf(trace, c.marked)) ==
             Backfill.Requests(tip.height, seen.maxSeen, HeldHeights(held), checked.requestedHeights, now)
    ensures IsTick(m, s, trace, now, c)
    ensures Wanted(m, s, trace, now, c) ==
            Backfill.Requests(tip.height, seen.maxSeen, HeldHeights(held), checked.requestedHeights, now)
  {
    hide NodeAt, IsRun, Backfill.Requests, HeldHeights, Backfill.Flatten, RangesOf;
  }

  lemma RangesStill(before: seq<Event>, trace: seq<Event>, at: seq<nat>)
    requires before <= trace && forall k :: 0 <= k < |at| ==> at[k] < |before| && before[at[k]].Mark?
    ensures forall k :: 0 <= k < |at| ==> trace[at[k]].Mark?
    ensures RangesOf(trace, at) == RangesOf(before, at)
  {
  }

  /** Looking back from a longer run changes no walk. */
  lemma {:induction false} WalkStill(m: Machine, s: System, before: seq<Event>, trace: seq<Event>, w: Walker,
                                     at: seq<nat>)
    requires IsRun(m, s, before) && IsRun(m, s, trace) && before <= trace && AllWithin(before, at)
    ensures NodeCertify.Walk(m, s, trace, w, at) == NodeCertify.Walk(m, s, before, w, at)
    decreases |at|
  {
    hide IsRun, Hop, After;
    if at != [] {
      var k := |at| - 1;
      WalkStill(m, s, before, trace, w, at[..k]);
      assert trace[..at[k]] == before[..at[k]];
    }
  }

  /** The state of a guard's walk: the tip it read, and how far it is down. */
  ghost predicate Descending(m: Machine, s: System, trace: seq<Event>, tip: Node, c: Guard, v: Walker) {
    && Was(m, s, trace, c.tipAt, tip) && InRun(trace, c)
    && NodeCertify.Walk(m, s, trace, Start(tip), c.hops) == Some(v) && v.h + |c.hops| == tip.height
  }

  lemma WalkStarts(m: Machine, s: System, trace: seq<Event>, t: System)
    requires Reaches(m, s, trace, t)
    ensures Descending(m, s, trace, t.node, Guard(|trace|, []), Start(t.node))
  {
    WasNow(m, s, trace, t);
  }

  lemma WalkWaits(m: Machine, s: System, before: seq<Event>, trace: seq<Event>, t: System, tip: Node, c: Guard,
                  v: Walker)
    requires Descending(m, s, before, tip, c, v) && before <= trace && Reaches(m, s, trace, t)
    ensures Descending(m, s, trace, tip, c, v)
  {
    hide IsRun, NodeCertify.Walk, After, NodeAt;
    WasStill(m, s, before, trace, c.tipAt, tip, t);
    WalkStill(m, s, before, trace, Start(tip), c.hops);
  }

  /** One more hop, made now. */
  lemma WalkHops(m: Machine, s: System, trace: seq<Event>, t: System, tip: Node, c: Guard, v: Walker)
    requires Descending(m, s, trace, tip, c, v) && Reaches(m, s, trace, t)
    ensures var c' := c.(hops := c.hops + [|trace|]);
            && InRun(trace, c') && NodeCertify.Walk(m, s, trace, Start(tip), c'.hops) == Hop(t.node, v)
            && c'.hops[..|c.hops|] == c.hops
            && (Hop(t.node, v).Some? ==> Descending(m, s, trace, tip, c', Hop(t.node, v).value))
  {
    hide IsRun, After, NodeAt, NodeCertify.Walk, Lookup;
    WasNow(m, s, trace, t);
    var c' := c.(hops := c.hops + [|trace|]);
    assert c'.hops[..|c.hops|] == c.hops;
    LastHop(m, s, trace, Start(tip), c'.hops);
  }

  /** A walk that ended is a whole call, and this is its answer. */
  lemma WalkEnds(m: Machine, s: System, trace: seq<Event>, tip: Node, c: Guard, v: Walker, p: Payload)
    requires Descending(m, s, trace, tip, c, v)
    requires |c.hops| == Depth(tip, p)
    ensures IsGuard(m, s, trace, p, c)
    ensures GuardAnswer(m, s, trace, p, c) ==
            if p.height > tip.height || v.h > p.height then None else Some(v.d == Of(p))
  {
    hide IsRun, After, NodeAt;
  }

  lemma WalkMisses(m: Machine, s: System, trace: seq<Event>, t: System, tip: Node, c: Guard, v: Walker, p: Payload)
    requires Descending(m, s, trace, tip, c, v) && Reaches(m, s, trace, t) && Hop(t.node, v).None?
    requires |c.hops| < Depth(tip, p)
    ensures var c' := c.(hops := c.hops + [|trace|]);
            IsGuard(m, s, trace, p, c') && GuardAnswer(m, s, trace, p, c') == None
  {
    hide IsRun, After, NodeAt, NodeCertify.Walk, Hop;
    WalkHops(m, s, trace, t, tip, c, v);
  }

  lemma GuardStill(m: Machine, s: System, before: seq<Event>, trace: seq<Event>, p: Payload, c: Guard)
    requires IsRun(m, s, before) && IsRun(m, s, trace) && before <= trace && IsGuard(m, s, before, p, c)
    ensures IsGuard(m, s, trace, p, c) && GuardAnswer(m, s, trace, p, c) == GuardAnswer(m, s, before, p, c)
  {
    hide IsRun, NodeCertify.Walk, After;
    assert trace[..c.tipAt] == before[..c.tipAt];
    var n := NodeAt(m, s, before, c.tipAt);
    WalkStill(m, s, before, trace, Start(n), c.hops);
    if c.hops != [] {
      WalkStill(m, s, before, trace, Start(n), c.hops[..|c.hops| - 1]);
    }
  }

  /** What one call of `certify` was, from the run it leaves: `found` held the payload, the
      guard ended within `within`, and a put, if one was made, met `base`. */
  lemma CertifyIs(m: Machine, s: System, within: seq<Event>, trace: seq<Event>, p: Payload, c: Call, found: Node,
                  base: Node)
    requires IsRun(m, s, within) && IsRun(m, s, trace) && within <= trace && IsGuard(m, s, within, p, c.guard)
    requires c.found <= c.guard.tipAt && |within| <= c.decided <= |trace|
    requires Was(m, s, trace, c.found, found) && Lookup(found, Of(p)) == Some(p)
    requires GuardAnswer(m, s, within, p, c.guard) != Some(false) ==>
               && c.decided < |trace| && trace[c.decided].CertifyPut? && trace[c.decided].p == p
               && Was(m, s, trace, c.decided, base)
    ensures IsCertify(m, s, trace, p, c)
    ensures Answer(m, s, trace, p, c) ==
            (GuardAnswer(m, s, within, p, c.guard) != Some(false) &&
             P.PutWith(base.store, p, false, trace[c.decided].cio).1)
  {
    hide IsRun, NodeCertify.Walk, After, NodeAt, P.PutWith, Lookup;
    GuardStill(m, s, within, trace, p, c.guard);
  }

  /** `trace` is a run from `s` to `t` that starts with a call for `d` and contains no
      other call and no restart. */
  ghost predicate InCall(m: Machine, s: System, d: Digest, trace: seq<Event>, t: System) {
    Reaches(m, s, trace, t) && IsCall(trace, 0, d)
  }

  lemma CallYields(m: Machine, s: System, d: Digest, before: seq<Event>, trace: seq<Event>, t: System, u: System)
    requires InCall(m, s, d, before, t) && Reaches(m, s, trace, u) && before <= trace
    requires forall k :: |before| <= k < |trace| ==> IsOther(trace[k])
    ensures InCall(m, s, d, trace, u)
  {
    hide Reaches;
    forall k | 0 < k < |trace|
      ensures !trace[k].FinalizeStart? && !trace[k].Restart?
    {
      if k < |before| {
        assert trace[k] == before[k];
      }
    }
  }

  lemma CallStarts(m: Machine, s: System, d: Digest)
    requires s.task.Idle?
    ensures InCall(m, s, d, [FinalizeStart(d)], Step(m, s, FinalizeStart(d)))
  {
    var trace := [FinalizeStart(d)];
    assert trace[..0] == [];
    assert IsRun(m, s, []) && After(m, s, []) == s;
  }

  lemma CallContinues(m: Machine, s: System, d: Digest, trace: seq<Event>, t: System, e: Event)
    requires InCall(m, s, d, trace, t) && Enabled(t, e) && !e.FinalizeStart? && !e.Restart?
    ensures InCall(m, s, d, trace + [e], Step(m, t, e))
  {
    hide Enabled, Step;
    assert (trace + [e])[..|trace|] == trace;
  }

  /** What the theorems say about a finished call. */
  lemma CallEnds(m: Machine, g: App, s: System, d: Digest, trace: seq<Event>, t: System)
    requires Inv(m, g, s) && s.task.Idle? && InCall(m, s, d, trace, t) && t.task.Idle?
    ensures Inv(m, g, t)
    ensures t.node.last == s.node.last ||
            (Ancestor(s.node.last, d) && Ancestor(s.node.last, t.node.last) &&
             PathFrom(s.node.last, t.node.last) <= PathFrom(s.node.last, d))
    ensures Ancestor(d, s.node.last) ==> t.node.last == s.node.last
  {
    hide Inv;
    assert trace[..0] == [] && IsRun(m, s, []) && After(m, s, []) == s;
    RunKeepsInv(m, g, s, trace);
    FinalizeExecutesPrefix(m, g, s, trace, 0, d);
    if Ancestor(d, s.node.last) && t.node.last != s.node.last {
      AncestorAntisymmetric(d, s.node.last);
      AncestorAntisymmetric(t.node.last, s.node.last);
    }
  }

  /** Some payload on the path from `tip` to `d` is held neither in memory nor on disk. */
  ghost predicate Misses(n: Node, tip: Digest, d: Digest) {
    exists a :: Ancestor(tip, a) && a != tip && Ancestor(a, d) && Lookup(n, a).None?
  }

  lemma WalkingCursor(m: Machine, g: App, s: System)
    requires Inv(m, g, s) && s.task.Walking? && s.task.cursor != s.task.tip && Lookup(s.node, s.task.cursor).None?
    ensures Ancestor(s.task.tip, s.task.target) ==> Misses(s.node, s.task.tip, s.task.target)
  {
  }

  /** `ExecutableNeverHalts`, for the two steps that can stop a call early. */
  lemma NoHaltOnPath(m: Machine, g: App, s: System, e: Event)
    requires Inv(m, g, s) && Enabled(s, e) && (e.WalkPoll? || e.ExecuteNext?)
    requires !s.task.Idle? && Step(m, s, e).task.Idle?
    ensures !(Executed(m, g, s.task.target).Some? && Ancestor(s.task.tip, s.task.target))
  {
    hide Inv, Step;
    if Executed(m, g, s.task.target).Some? && Ancestor(s.task.tip, s.task.target) {
      ExecutableNeverHalts(m, g, s, e);
    }
  }

  lemma CallKeepsInv(m: Machine, g: App, s: System, d: Digest, trace: seq<Event>, t: System)
    requires Inv(m, g, s) && InCall(m, s, d, trace, t)
    ensures Inv(m, g, t)
  {
    hide Inv;
    RunKeepsInv(m, g, s, trace);
  }

  lemma WalkingTip(m: Machine, g: App, s: System)
    requires Inv(m, g, s) && s.task.Walking?
    ensures s.task.tip == s.node.last && s.task.tipHeight == s.node.height
  {
  }

  lemma PollUnfold(n: Node, t: Task, ask: bool)
    requires t.Walking?
    ensures PollWalk(n, t, ask) ==
            if t.cursor == t.tip then System(n, Executing(t.target, t.tip, t.tipHeight, t.chain, 0))
            else
              match Lookup(n, t.cursor)
              case None => System(if ask then RequestPayload(n, t.cursor) else n, t)
              case Some(p) =>
                if p.height <= t.tipHeight then System(n, Idle)
                else System(n, t.(cursor := p.parent, chain := [p] + t.chain))
  {
  }

  lemma ExecuteUnfold(m: Machine, n: Node, t: Task, io: P.Io)
    requires t.Executing? && t.done < |t.chain|
    ensures var p := t.chain[t.done];
            ExecuteBlock(m, n, t, io) ==
            if p.height != t.tipHeight + 1 + t.done || p.stateRoot != m.root(n.app.kv) then System(n, Idle)
            else
              var n1 := n.(pending := n.pending - {Of(p)});
              match ExecutePayload(m, n1, p, io)
              case None => System(n1, Idle)
              case Some(n2) => System(n2, t.(done := t.done + 1))
  {
  }

  lemma NotReturned(s: System, e: Event)
    requires !e.FinalizeEnd?
    ensures Returned(s, e) == None
  {
  }

  lemma CleanUpUnfold(n: Node)
    ensures CleanUp(n) ==
            n.(pending := map d | d in n.pending && n.pending[d].height > n.height :: n.pending[d],
               store := P.PruneBelow(n.store, SubSat(n.height, P.RETAIN_HEIGHTS)))
  {
  }

  /** At the end of the execution loop at least one block ran and the tip is the target. */
  lemma ArrivedByExecuting(m: Machine, g: App, s: System)
    requires Inv(m, g, s) && s.task.Executing? && s.task.done == |s.task.chain|
    ensures s.task.chain != [] && s.node.last == s.task.target && s.task.target.Of?
    ensures s.task.chain[|s.task.chain| - 1] == s.task.target.payload
    ensures Returned(s, FinalizeEnd) == Some((s.node.height, s.task.target.payload.timeNanos))
  {
    var t := s.task;
    assert t.chain[t.done..] == [];
    PathEmptyIff(s.node.last, t.target);
    PathEmptyIff(t.tip, t.target);
  }

  lemma WasNode(m: Machine, s: System, trace: seq<Event>, i: nat, n: Node)
    requires Was(m, s, trace, i, n)
    ensures IsRun(m, s, trace) && i <= |trace| && NodeAt(m, s, trace, i) == n
  {
  }

  lemma HeldIs(n: Node)
    ensures HeldHeights(n) == (set d | d in n.pending :: n.pending[d].height) + n.store.byHeight.Keys
  {
  }

  lemma RequestsAre(tip: nat, maxSeen: nat, held: set<nat>, marks: map<nat, nat>, now: nat)
    requires Min(maxSeen, tip + Backfill.MAX_SPAN) > tip
    ensures Backfill.Requests(tip, maxSeen, held, marks, now) ==
            Backfill.First(Backfill.Missing(held, Backfill.Retained(marks, now), now, tip + 1,
                                            Min(maxSeen, tip + Backfill.MAX_SPAN) + 1), Backfill.TICK_BUDGET)
  {
  }

  lemma NoneFlat()
    ensures Backfill.Flatten([]) == []
  {
  }
}
