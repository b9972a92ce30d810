/** `LayerNode` as the source writes it: an object whose methods update its fields and
    loop. A method that awaits returns the run of the machine it performed, the steps of
    other tasks included, and is proved to be the call that the theorems speak of. */
module NodeClass {
  import opened Common
  import opened Chain
  import opened Node
  import opened NodeSafety
  import opened NodeTheorems
  import opened NodeStaging
  import opened NodeCertify
  import opened NodeBuffers
  import opened NodeRuns
  import P = PayloadStore
  import Backfill

  class LayerNode {
    const m: Machine
    var app: App
    var height: nat
    var last: Digest
    var pending: map<Digest, Payload>
    var store: P.Disk
    var requested: set<Digest>
    var requestedHeights: map<nat, nat>
    var staged: map<Digest, Staged>
    var maxSeen: nat

    /** What running tasks hold on their stacks: results of simulations, on their way to the
        cache. Not a field of the source; `Yield` needs it to perform their steps. */
    var sims: set<(Digest, Staged)>

    function View(): Node
      reads this
    {
      Node(app, height, last, pending, store, requested, requestedHeights, staged, maxSeen, sims)
    }

    /** Take over the state another task left. */
    method Become(n: Node)
      modifies this
      ensures View() == n
    {
      app, height, last, pending, store := n.app, n.height, n.last, n.pending, n.store;
      requested, requestedHeights, staged, maxSeen, sims :=
        n.requested, n.requestedHeights, n.staged, n.maxSeen, n.sims;
    }

    /** An await: other tasks take the steps `events`, as far as they are enabled and
        allowed. */
    method Yield(task0: Task, events: seq<Event>, mode: Mode, ghost s: System, ghost trace0: seq<Event>)
        returns (task: Task, ghost trace: seq<Event>)
      requires Reaches(m, s, trace0, System(View(), task0))
      modifies this
      ensures Reaches(m, s, trace, System(View(), task)) && trace0 <= trace
      ensures mode.Alone? ==> task == task0 && (forall k :: |trace0| <= k < |trace| ==> IsOther(trace[k]))
      ensures mode.TipHeld? ==> SameTip(old(View()), View())
      ensures old(sims) <= sims
    {
      hide Reaches, Step, Enabled;
      task, trace := task0, trace0;
      for i := 0 to |events|
        invariant Reaches(m, s, trace, System(View(), task)) && trace0 <= trace
        invariant mode.Alone? ==> task == task0 && (forall k :: |trace0| <= k < |trace| ==> IsOther(trace[k]))
        invariant mode.TipHeld? ==> SameTip(old(View()), View())
        invariant old(sims) <= sims
      {
        var t, e := System(View(), task), events[i];
        if Enabled(t, e) && Allowed(mode, e) {
          ReachesNext(m, s, trace, t, e);
          SimsGrow(m, t, e);
          if IsOther(e) {
            OtherKeepsTask(m, t, e);
          }
          if !e.ExecuteNext? {
            TipIsKept(m, t, e);
          }
          var t' := Step(m, t, e);
          Become(t'.node);
          task := t'.task;
          trace := trace + [e];
        }
      }
    }

    /** `new` and `with_payload_store`, on a fresh chain. */
    constructor (m: Machine, g: App, store: P.Disk)
      requires IsGenesis(g) && P.Valid(store)
      ensures this.m == m && IsInitial(g, System(View(), Idle))
      ensures Inv(m, g, System(View(), Idle))
    {
      this.m, this.app, this.height, this.last := m, g, 0, Genesis;
      this.pending, this.store := map[], store;
      this.requested, this.requestedHeights, this.staged, this.maxSeen, this.sims := {}, map[], map[], 0, {};
      new;
      InitialInv(m, g, System(View(), Idle));
    }

    method LookupPayload(d: Digest) returns (r: Option<Payload>)
      ensures r == Lookup(View(), d)
    {
      if d in pending {
        return Some(pending[d]);
      }
      r := P.Get(store, d);
    }

    method RequestFromPeers(d: Digest)
      modifies this
      ensures View() == RequestPayload(old(View()), d)
    {
      if |requested| >= MAX_REQUESTED {
        requested := {};
      }
      requested := requested + {d};
    }

    /** `max_by_key` over the pending payloads. */
    method FurthestPending() returns (victim: Digest)
      requires pending != map[]
      ensures IsVictim(View(), victim)
    {
      victim :| victim in pending;
      var left := pending.Keys - {victim};
      while left != {}
        invariant left <= pending.Keys && victim in pending
        invariant forall d <- pending :: d in left || pending[d].height <= pending[victim].height
        decreases left
      {
        var d :| d in left;
        if pending[d].height > pending[victim].height {
          victim := d;
        }
        left := left - {d};
      }
    }

    /** `accept_peer_relay`: the tip, the height hint, the two kinds of request marks and
        the buffer are each taken on their own, and other tasks act in between. */
    method AcceptPeerRelay(p: Payload, gaps: seq<seq<Event>>, task0: Task, ghost s: System, ghost trace0: seq<Event>)
        returns (r: Admission, task: Task, ghost trace: seq<Event>, ghost c: Arrival)
      requires |gaps| == 5 && Reaches(m, s, trace0, System(View(), task0))
      modifies this
      ensures Reaches(m, s, trace, System(View(), task)) && IsRun(m, s, trace)
      ensures !WithinLimits(p) ==> r == ExceedsLimits && trace == trace0
      ensures WithinLimits(p) && p.height <= old(height) ==> r == AtOrBelowTip && trace == trace0
      ensures WithinLimits(p) && p.height > old(height) ==>
                IsArrival(m, s, trace, p, c) && c.tipAt == |trace0| && r == Reception(m, s, trace, p, c)
    {
      hide Reaches, Was, IsRun, After, NodeAt, TotalBytes, IsArrival, Reception, Step, Enabled, Buffered, Decide, Max;
      trace, task, c := trace0, task0, Arrival(|trace0|, 0, 0, 0, 0, 0);
      ReachesRun(m, s, trace, System(View(), task));
      if |p.txs| > MAX_BLOCK_TXS || TotalBytes(p.txs) > MAX_BLOCK_TX_BYTES {
        return ExceedsLimits, task, trace, c;
      }
      if p.height <= height {
        return AtOrBelowTip, task, trace, c;
      }
      r, task, trace, c := Receive(p, gaps, task, s, trace);
    }

    /** The rest of it, for a payload within limits and above the tip. */
    method Receive(p: Payload, gaps: seq<seq<Event>>, task0: Task, ghost s: System, ghost trace0: seq<Event>)
        returns (r: Admission, task: Task, ghost trace: seq<Event>, ghost c: Arrival)
      requires |gaps| == 5 && Reaches(m, s, trace0, System(View(), task0)) && WithinLimits(p) && p.height > height
      modifies this
      ensures Reaches(m, s, trace, System(View(), task)) && IsRun(m, s, trace)
      ensures IsArrival(m, s, trace, p, c) && c.tipAt == |trace0| && r == Reception(m, s, trace, p, c)
    {
      hide Reaches, Was, IsRun, After, NodeAt, WithinLimits, IsArrival, Reception, Step, Enabled, Buffered, Decide, Max;
      var tip := height;
      ghost var tipNode := View();
      WasNow(m, s, trace0, System(View(), task0));
      task, trace := Yield(task0, gaps[0], Free, s, trace0);
      var near := p.height <= maxSeen || p.height <= tip + LOOKAHEAD;
      ghost var seen, t1 := View(), trace;
      WasNow(m, s, trace, System(View(), task));
      WasStill(m, s, trace0, trace, |trace0|, tipNode, System(View(), task));
      task, trace := Yield(task, gaps[1], Free, s, trace);
      c := Arrival(|trace0|, |t1|, |trace|, 0, 0, 0);
      ghost var t2 := trace;
      trace := NoteHeight(p.height, task, s, trace);
      WasStill(m, s, t1, trace, |trace0|, tipNode, System(View(), task));
      WasStill(m, s, t1, trace, |t1|, seen, System(View(), task));
      r, task, trace, c := Admitting(p, near, gaps[2..], task, s, trace, c, tipNode, seen);
    }

    /** The marks and the buffer, for a payload already observed. */
    method Admitting(p: Payload, near: bool, gaps: seq<seq<Event>>, task0: Task, ghost s: System,
                     ghost trace0: seq<Event>, ghost c0: Arrival, ghost tipNode: Node, ghost seen: Node)
        returns (r: Admission, task: Task, ghost trace: seq<Event>, ghost c: Arrival)
      requires |gaps| == 3 && Reaches(m, s, trace0, System(View(), task0)) && WithinLimits(p)
      requires Was(m, s, trace0, c0.tipAt, tipNode) && Was(m, s, trace0, c0.seenAt, seen) && p.height > tipNode.height
      requires c0.tipAt <= c0.seenAt <= c0.observed < |trace0| && trace0[c0.observed] == Observe(p.height)
      requires near == (p.height <= seen.maxSeen || p.height <= tipNode.height + LOOKAHEAD)
      modifies this
      ensures Reaches(m, s, trace, System(View(), task)) && IsRun(m, s, trace)
      ensures c.tipAt == c0.tipAt && IsArrival(m, s, trace, p, c) && r == Reception(m, s, trace, p, c)
    {
      hide Reaches, Was, IsRun, After, NodeAt, WithinLimits, IsArrival, Reception, Step, Enabled, Buffered, Decide, Max;
      task, trace := Yield(task0, gaps[0], Free, s, trace0);
      ghost var t2 := trace;
      var solicited;
      ghost var asked, marked, h;
      solicited, task, trace, asked, marked, h := TakeMarks(p, gaps[1], task, s, trace);
      ghost var t3 := trace;
      task, trace := Yield(task, gaps[2], Free, s, trace);
      ghost var offered, t4 := View(), trace;
      WasNow(m, s, trace, System(View(), task));
      ghost var victim;
      r, trace, victim := Offer(p, solicited, near, task, s, trace);
      c := Arrival(c0.tipAt, c0.seenAt, c0.observed, |t2|, h, |t4|);
      ghost var t := System(View(), task);
      WasStill(m, s, trace0, trace, c.tipAt, tipNode, t);
      WasStill(m, s, trace0, trace, c.seenAt, seen, t);
      WasStill(m, s, t3, trace, |t2|, asked, t);
      WasStill(m, s, t3, trace, h, marked, t);
      WasStill(m, s, t4, trace, |t4|, offered, t);
      ReachesRun(m, s, trace, t);
      ArrivalIs(m, s, trace, p, c, tipNode, seen, asked, marked, offered, near, solicited, victim);
    }

    /** Use up the request mark of a payload's digest or, without one, of its height. */
    method TakeMarks(p: Payload, gap: seq<Event>, task0: Task, ghost s: System, ghost trace0: seq<Event>)
        returns (solicited: bool, task: Task, ghost trace: seq<Event>, ghost asked: Node, ghost marked: Node,
                 ghost h: nat)
      requires Reaches(m, s, trace0, System(View(), task0))
      modifies this
      ensures Reaches(m, s, trace, System(View(), task)) && trace0 + [TakeDigest(Of(p))] <= trace
      ensures |trace0| <= h < |trace| && Was(m, s, trace, |trace0|, asked) && Was(m, s, trace, h, marked)
      ensures |trace0| < h <==> Of(p) !in asked.requested
      ensures |trace0| < h ==> trace[h] == TakeHeight(p.height)
      ensures solicited == (Of(p) in asked.requested || p.height in marked.requestedHeights)
    {
      hide Reaches, Was, Step, Enabled;
      task := task0;
      asked, marked, h := View(), View(), |trace0|;
      WasNow(m, s, trace0, System(View(), task));
      solicited := Of(p) in requested;
      trace := DropDigest(Of(p), task, s, trace0);
      WasStill(m, s, trace0, trace, |trace0|, asked, System(View(), task));
      if !solicited {
        ghost var t1 := trace;
        task, trace := Yield(task, gap, Free, s, trace);
        marked, h := View(), |trace|;
        ghost var t2 := trace;
        WasNow(m, s, trace, System(View(), task));
        solicited := p.height in requestedHeights;
        trace := DropHeight(p.height, task, s, trace);
        WasStill(m, s, t1, trace, |trace0|, asked, System(View(), task));
        WasStill(m, s, t2, trace, h, marked, System(View(), task));
      }
    }

    /** `note_height_observed`. */
    method NoteHeight(h: nat, task: Task, ghost s: System, ghost trace0: seq<Event>) returns (ghost trace: seq<Event>)
      requires Reaches(m, s, trace0, System(View(), task))
      modifies this
      ensures trace == trace0 + [Observe(h)] && Reaches(m, s, trace, System(View(), task))
    {
      hide Reaches;
      ReachesNext(m, s, trace0, System(View(), task), Observe(h));
      maxSeen := Max(maxSeen, h);
      trace := trace0 + [Observe(h)];
    }

    method DropDigest(d: Digest, task: Task, ghost s: System, ghost trace0: seq<Event>)
        returns (ghost trace: seq<Event>)
      requires Reaches(m, s, trace0, System(View(), task))
      modifies this
      ensures trace == trace0 + [TakeDigest(d)] && Reaches(m, s, trace, System(View(), task))
    {
      hide Reaches;
      ReachesNext(m, s, trace0, System(View(), task), TakeDigest(d));
      requested := requested - {d};
      trace := trace0 + [TakeDigest(d)];
    }

    method DropHeight(h: nat, task: Task, ghost s: System, ghost trace0: seq<Event>) returns (ghost trace: seq<Event>)
      requires Reaches(m, s, trace0, System(View(), task))
      modifies this
      ensures trace == trace0 + [TakeHeight(h)] && Reaches(m, s, trace, System(View(), task))
    {
      hide Reaches;
      ReachesNext(m, s, trace0, System(View(), task), TakeHeight(h));
      requestedHeights := requestedHeights - {h};
      trace := trace0 + [TakeHeight(h)];
    }

    /** The buffer section of `accept_peer_relay`. */
    method Offer(p: Payload, solicited: bool, near: bool, task: Task, ghost s: System, ghost trace0: seq<Event>)
        returns (r: Admission, ghost trace: seq<Event>, ghost victim: Digest)
      requires WithinLimits(p) && Reaches(m, s, trace0, System(View(), task))
      modifies this
      ensures trace == trace0 + [Admit(p, solicited, near, victim)] && Reaches(m, s, trace, System(View(), task))
      ensures r == Decide(old(View()), p, solicited, near)
    {
      hide Reaches, WithinLimits;
      ghost var before := View();
      victim := Genesis;
      if Of(p) in pending {
        r := AlreadyKnown;
      } else if !solicited && !near {
        r := BeyondLookahead;
      } else if !solicited && |pending| >= MAX_PENDING - SOLICITED_RESERVE {
        r := AtCapacity;
      } else {
        if |pending| >= MAX_PENDING {
          var furthest := FurthestPending();
          victim := furthest;
          pending := pending - {furthest};
        }
        pending := pending[Of(p) := p];
        r := Inserted(!solicited);
      }
      ReachesNext(m, s, trace0, System(before, task), Admit(p, solicited, near, victim));
      trace := trace0 + [Admit(p, solicited, near, victim)];
    }

    /** The simulation of a parent on a droppable transaction. */
    method SimulateParent(parent: Digest, pp: Payload) returns (r: Option<Staged>)
      modifies this
      ensures r == Simulate(m, old(View()).app, pp)
      ensures View() == old(View()).(sims := old(sims) + Results(parent, r))
    {
      var next := FinalizeBlock(m, app, BlockOf(pp, pp.height));
      if next.None? {
        return None;
      }
      r := Some(Staged(m.root(next.value.kv), pp.timeNanos, pp.height));
      sims := sims + {(parent, r.value)};
    }

    method CacheResult(parent: Digest, st: Staged)
      modifies this
      ensures View() == old(View()).(staged := CacheStaged(old(staged), parent, st))
    {
      if |staged| >= STAGED_CAPACITY {
        staged := map[];
      }
      staged := staged[parent := st];
    }

    /** `staged_parent`, for a caller that read `tip` before event `i`: the payload, the
        cache, the app and the cache again are each taken on their own, and other tasks
        act in between. */
    method StagedParent(parent: Digest, tip: Digest, gaps: seq<seq<Event>>, mode: Mode, task0: Task, ghost g: App,
                        ghost s: System, ghost trace0: seq<Event>, ghost i: nat, ghost tipNode: Node)
        returns (r: Option<Staged>, task: Task, ghost trace: seq<Event>, ghost at: (nat, nat, nat))
      requires |gaps| == 3 && Inv(m, g, s) && Reaches(m, s, trace0, System(View(), task0))
      requires Was(m, s, trace0, i, tipNode) && tipNode.last == tip && !mode.Alone?
      modifies this
      ensures Reaches(m, s, trace, System(View(), task)) && trace0 <= trace && IsRun(m, s, trace)
      ensures |trace0| <= at.0 <= at.1 <= at.2 <= |trace| && r == StageCall(m, s, trace, parent, i, at.0, at.1, at.2)
      ensures mode.TipHeld? ==> NodeAt(m, s, trace, at.2).last == old(last)
    {
      hide Reaches, Inv, Lookup, Simulate, StageCall, CacheStaged, Results, Was, IsRun, After, NodeAt, P.Get, Commit;
      trace, task := trace0, task0;
      WasNode(m, s, trace0, i, tipNode);
      ghost var found, j, t1 := View(), |trace|, trace;
      WasNow(m, s, trace, System(View(), task));
      var pp := LookupPayload(parent);
      RunInv(m, g, s, trace, System(View(), task));
      InvLookup(m, g, System(View(), task), parent);
      at := (j, j, j);
      StageCallIs(m, s, trace, parent, i, tipNode, j, found, j, found, j, found);
      if pp.None? || pp.value.parent != tip {
        return None, task, trace, at;
      }
      task, trace := Yield(task, gaps[0], mode, s, trace);
      ghost var cache, k, t2 := View(), |trace|, trace;
      WasNow(m, s, trace, System(View(), task));
      WasStill(m, s, t1, trace, i, tipNode, System(View(), task));
      WasStill(m, s, t1, trace, j, found, System(View(), task));
      at := (j, k, k);
      StageCallIs(m, s, trace, parent, i, tipNode, j, found, k, cache, k, cache);
      if parent in staged {
        return Some(staged[parent]), task, trace, at;
      }
      ghost var l, base;
      r, task, trace, l, base :=
        StageAfresh(parent, pp.value, tip, gaps[1], gaps[2], mode, task, g, s, trace, i, tipNode);
      at := (j, k, l);
      ghost var t := System(View(), task);
      WasStill(m, s, t2, trace, i, tipNode, t);
      WasStill(m, s, t2, trace, j, found, t);
      WasStill(m, s, t2, trace, k, cache, t);
      WasNode(m, s, trace, l, base);
      StageCallIs(m, s, trace, parent, i, tipNode, j, found, k, cache, l, base);
    }

    /** The miss path of `staged_parent`: simulate on the app, then cache the result. */
    method StageAfresh(parent: Digest, pp: Payload, tip: Digest, gap: seq<Event>, gap': seq<Event>, mode: Mode,
                       task0: Task, ghost g: App, ghost s: System, ghost trace0: seq<Event>, ghost i: nat,
                       ghost tipNode: Node)
        returns (r: Option<Staged>, task: Task, ghost trace: seq<Event>, ghost l: nat, ghost base: Node)
      requires Inv(m, g, s) && Reaches(m, s, trace0, System(View(), task0)) && parent == Of(pp) && pp.parent == tip
      requires Was(m, s, trace0, i, tipNode) && tipNode.last == tip
      modifies this
      ensures Reaches(m, s, trace, System(View(), task)) && trace0 <= trace
      ensures |trace0| <= l <= |trace| && Was(m, s, trace, l, base) && r == Simulate(m, base.app, pp)
      ensures mode.TipHeld? ==> base.last == old(last)
    {
      hide Reaches, Inv, Simulate, CacheStaged, Was, Ancestor;
      task, trace := Yield(task0, gap, mode, s, trace0);
      ghost var t := System(View(), task);
      base, l := View(), |trace|;
      ghost var t1 := trace;
      WasNow(m, s, trace, t);
      WasStill(m, s, trace0, trace, i, tipNode, t);
      TipWasEarlier(m, g, s, trace, i, tipNode, t);
      ReachesNext(m, s, trace, t, Simulating(parent, tip));
      r := SimulateParent(parent, pp);
      trace := trace + [Simulating(parent, tip)];
      task, trace := FinishStaging(parent, r, gap', mode, task, s, trace);
      WasStill(m, s, t1, trace, l, base, System(View(), task));
    }

    /** `propose`'s staging: the tip is released before the parent is staged. */
    method StageForProposal(parent: Digest, gap: seq<Event>, gaps: seq<seq<Event>>, task0: Task, ghost g: App,
                            ghost s: System, ghost trace0: seq<Event>)
        returns (r: Option<Staged>, task: Task, ghost trace: seq<Event>, ghost at: (nat, nat, nat))
      requires |gaps| == 3 && Inv(m, g, s) && Reaches(m, s, trace0, System(View(), task0))
      modifies this
      ensures Reaches(m, s, trace, System(View(), task)) && IsRun(m, s, trace)
      ensures |trace0| <= at.0 <= at.1 <= at.2 <= |trace|
      ensures r == StageCall(m, s, trace, parent, |trace0|, at.0, at.1, at.2)
    {
      hide Reaches, Inv, StageCall, Was, IsRun, After, NodeAt;
      var tip := last;
      ghost var tipNode := View();
      WasNow(m, s, trace0, System(View(), task0));
      task, trace := Yield(task0, gap, Free, s, trace0);
      WasStill(m, s, trace0, trace, |trace0|, tipNode, System(View(), task));
      r, task, trace, at := StagedParent(parent, tip, gaps, Free, task, g, s, trace, |trace0|, tipNode);
    }

    /** The end of a staging: a result is cached once the cache lock is free. */
    method FinishStaging(parent: Digest, r: Option<Staged>, gap: seq<Event>, mode: Mode, task0: Task, ghost s: System,
                         ghost trace0: seq<Event>)
        returns (task: Task, ghost trace: seq<Event>)
      requires Reaches(m, s, trace0, System(View(), task0)) && Results(parent, r) <= sims
      modifies this
      ensures Reaches(m, s, trace, System(View(), task)) && trace0 <= trace
      ensures mode.TipHeld? ==> SameTip(old(View()), View())
    {
      hide Reaches, CacheStaged;
      task, trace := task0, trace0;
      if r.Some? {
        task, trace := Yield(task, gap, mode, s, trace);
        ReachesNext(m, s, trace, System(View(), task), Caching(parent, r.value));
        CacheResult(parent, r.value);
        trace := trace + [Caching(parent, r.value)];
      }
    }

    /** One poll of `verify`: the payload is looked up, then the tip is taken and held while
        the payload is judged; other tasks act before that and, leaving the tip alone,
        during it. */
    method VerifyOnce(d: Digest, parent: Digest, gap: seq<Event>, gaps: seq<seq<Event>>, now: nat, leader: Bytes,
                      task0: Task, ghost g: App, ghost s: System, ghost trace0: seq<Event>)
        returns (r: Option<Result<(), Reject>>, task: Task, ghost trace: seq<Event>, ghost c: Poll)
      requires |gaps| == 3 && Inv(m, g, s) && Reaches(m, s, trace0, System(View(), task0))
      modifies this
      ensures Reaches(m, s, trace, System(View(), task)) && IsRun(m, s, trace)
      ensures d !in old(pending) ==> r == None
      ensures d in old(pending) ==>
                IsPoll(m, s, trace, d, c) && c.found == |trace0| && r == Verdict(m, s, trace, d, parent, now, leader, c)
    {
      hide Reaches, Inv, StageCall, Was, IsRun, After, NodeAt, ValidatePayload, IsPoll, Verdict;
      trace, task, c := trace0, task0, Poll(|trace0|, 0, 0, 0, 0);
      ReachesRun(m, s, trace, System(View(), task));
      if d !in pending {
        return None, task, trace, c;
      }
      var p := pending[d];
      ghost var found := View();
      WasNow(m, s, trace, System(View(), task));
      task, trace := Yield(task, gap, Free, s, trace);
      ghost var tip, i, t0 := View(), |trace|, trace;
      WasNow(m, s, trace, System(View(), task));
      WasStill(m, s, trace0, trace, |trace0|, found, System(View(), task));
      WasNode(m, s, trace, i, tip);
      ReachesRun(m, s, trace, System(View(), task));
      if last == parent {
        c := Poll(|trace0|, i, i, i, i);
        PollIs(m, s, trace, d, parent, now, leader, c, found, tip);
        r := Some(ValidatePayload(p, parent, height + 1, m.root(app.kv), app.timeNanos, now, leader));
        return r, task, trace, c;
      }
      var h := height;
      var staged;
      ghost var at;
      staged, task, trace, at := StagedParent(parent, last, gaps, TipHeld, task, g, s, trace, i, tip);
      c := Poll(|trace0|, i, at.0, at.1, at.2);
      WasStill(m, s, t0, trace, |trace0|, found, System(View(), task));
      WasStill(m, s, t0, trace, i, tip, System(View(), task));
      PollIs(m, s, trace, d, parent, now, leader, c, found, tip);
      if staged.Some? {
        var st := staged.value;
        r := Some(ValidatePayload(p, parent, st.height + 1, st.root, st.timeNanos, now, leader));
        return r, task, trace, c;
      }
      r := if h >= p.height then Some(Err(StaleOrForked)) else None;
    }

    /** `consistent_with_executed_chain`: walk down from the tip; before each hop other
        tasks take the steps of a gap. */
    method ConsistentWithExecutedChain(p: Payload, gaps: seq<seq<Event>>, task0: Task, ghost s: System,
                                       ghost trace0: seq<Event>)
        returns (r: Option<bool>, task: Task, ghost trace: seq<Event>, ghost c: Guard)
      requires Reaches(m, s, trace0, System(View(), task0))
      modifies this
      ensures Reaches(m, s, trace, System(View(), task)) && trace0 <= trace && c.tipAt == |trace0|
      ensures IsRun(m, s, trace) && IsGuard(m, s, trace, p, c) && r == GuardAnswer(m, s, trace, p, c)
    {
      hide Reaches, Descending, Lookup, IsGuard, GuardAnswer, IsRun, After, NodeAt, NodeCertify.Walk, InRun,
           AllWithin, Was,
        Step, Enabled, P.Get;
      trace, task, c := trace0, task0, Guard(|trace0|, []);
      ghost var tip := View();
      ReachesRun(m, s, trace, System(View(), task));
      WalkStarts(m, s, trace, System(View(), task));
      if p.height > height {
        WalkEnds(m, s, trace, tip, c, Walker(last, height), p);
        return None, task, trace, c;
      }
      var d := last;
      var h: nat, hops: nat := height, 0;
      while h > p.height && hops < EXECUTED_WALK_MAX
        invariant Reaches(m, s, trace, System(View(), task)) && trace0 <= trace && IsRun(m, s, trace)
        invariant Descending(m, s, trace, tip, c, Walker(d, h)) && c.tipAt == |trace0|
        invariant hops == |c.hops| <= EXECUTED_WALK_MAX && h + hops == tip.height && h >= p.height
      {
        ghost var before := trace;
        var gap := if hops < |gaps| then gaps[hops] else [];
        task, trace := Yield(task, gap, Free, s, trace);
        ghost var t := System(View(), task);
        ReachesRun(m, s, trace, t);
        WalkWaits(m, s, before, trace, t, tip, c, Walker(d, h));
        var anc := LookupPayload(d);
        if anc.None? || anc.value.height != h {
          WalkMisses(m, s, trace, t, tip, c, Walker(d, h), p);
          return None, task, trace, c.(hops := c.hops + [|trace|]);
        }
        WalkHops(m, s, trace, t, tip, c, Walker(d, h));
        c := c.(hops := c.hops + [|trace|]);
        d, h, hops := anc.value.parent, h - 1, hops + 1;
      }
      WalkEnds(m, s, trace, tip, c, Walker(d, h), p);
      r := if h > p.height then None else Some(d == Of(p));
    }

    /** One poll of `certify`: look the payload up, consult the guard, put; other tasks
        act before the tip is read, at every hop and before the put. */
    method CertifyOnce(d: Digest, gaps: (seq<Event>, seq<seq<Event>>, seq<Event>), io: P.Io, task0: Task, ghost g: App,
                       ghost s: System, ghost trace0: seq<Event>)
        returns (r: Option<bool>, task: Task, ghost trace: seq<Event>, ghost c: Call)
      requires Inv(m, g, s) && Reaches(m, s, trace0, System(View(), task0))
      modifies this
      ensures Reaches(m, s, trace, System(View(), task)) && IsRun(m, s, trace)
      ensures r.Some? ==> d.Of? && IsCertify(m, s, trace, d.payload, c) && r.value == Answer(m, s, trace, d.payload, c)
    {
      hide Reaches, Inv, Lookup, IsGuard, GuardAnswer, Was, P.PutWith, IsRun, After, NodeAt, IsCertify, Answer, P.Get;
      trace, task, c := trace0, task0, Call(|trace0|, Guard(|trace0|, []), |trace0|);
      var p := LookupPayload(d);
      ghost var found, t0 := View(), trace;
      ReachesRun(m, s, trace, System(View(), task));
      RunInv(m, g, s, trace, System(View(), task));
      InvLookup(m, g, System(View(), task), d);
      WasNow(m, s, trace, System(View(), task));
      if p.None? {
        return None, task, trace, c;
      }
      task, trace := Yield(task, gaps.0, Free, s, trace);
      ghost var guard;
      var consistent;
      consistent, task, trace, guard := ConsistentWithExecutedChain(p.value, gaps.1, task, s, trace);
      WasStill(m, s, t0, trace, |t0|, found, System(View(), task));
      if consistent == Some(false) {
        c := Call(|t0|, guard, |trace|);
        CertifyIs(m, s, trace, trace, p.value, c, found, View());
        return Some(false), task, trace, c;
      }
      var ok;
      ok, task, trace, c := PutCertified(p.value, consistent, gaps.2, io, task, s, trace, |t0|, found, guard);
      return Some(ok), task, trace, c;
    }

    /** The put of `certify`, after a guard that did not refuse. */
    method PutCertified(p: Payload, consistent: Option<bool>, gap: seq<Event>, io: P.Io, task0: Task, ghost s: System,
                        ghost trace0: seq<Event>, ghost foundAt: nat, ghost found: Node, ghost guard: Guard)
        returns (ok: bool, task: Task, ghost trace: seq<Event>, ghost c: Call)
      requires Reaches(m, s, trace0, System(View(), task0)) && IsRun(m, s, trace0) && IsGuard(m, s, trace0, p, guard)
      requires consistent == GuardAnswer(m, s, trace0, p, guard) && consistent != Some(false)
      requires foundAt <= guard.tipAt && Was(m, s, trace0, foundAt, found) && Lookup(found, Of(p)) == Some(p)
      modifies this
      ensures Reaches(m, s, trace, System(View(), task)) && IsRun(m, s, trace)
      ensures IsCertify(m, s, trace, p, c) && ok == Answer(m, s, trace, p, c)
    {
      hide Reaches, Lookup, IsGuard, GuardAnswer, Was, P.PutWith, IsRun, After, NodeAt, IsCertify, Answer, P.Get;
      task, trace := Yield(task0, gap, Free, s, trace0);
      ghost var t := System(View(), task);
      c := Call(foundAt, guard, |trace|);
      WasNow(m, s, trace, t);
      ReachesNext(m, s, trace, t, CertifyPut(p, io));
      ghost var t2, base := trace, View();
      trace := trace + [CertifyPut(p, io)];
      var (store', done) := P.PutWith(store, p, false, io);
      store, ok := store', done;
      ReachesRun(m, s, trace, System(View(), task));
      WasStill(m, s, trace0, trace, foundAt, found, System(View(), task));
      WasStill(m, s, t2, trace, |t2|, base, System(View(), task));
      CertifyIs(m, s, trace0, trace, p, c, found, base);
    }

    /** The height half of `backfill_tick`: the tip, the height hint, the held heights and
        the marks are each read on their own, then each range is marked and sent, and other
        tasks act in between. `looked` says whether there was anything to look for. */
    method BackfillTick(now: nat, stamps: seq<nat>, gaps: seq<seq<Event>>, wired: bool, task0: Task, ghost s: System,
                        ghost trace0: seq<Event>)
        returns (looked: bool, sent: seq<Backfill.Range>, task: Task, ghost trace: seq<Event>, ghost c: Ticking)
      requires |gaps| == 3 && Reaches(m, s, trace0, System(View(), task0))
      modifies this
      ensures Reaches(m, s, trace, System(View(), task)) && IsRun(m, s, trace)
      ensures c.tipAt == |trace0| <= c.seenAt <= |trace|
      ensures looked <==>
              NodeAt(m, s, trace, c.seenAt).maxSeen > NodeAt(m, s, trace, c.tipAt).height
      ensures looked ==> IsTick(m, s, trace, now, c)
      ensures Backfill.Flatten(sent) == if looked && wired then Wanted(m, s, trace, now, c) else []
      ensures forall r <- sent :: 0 < r.count <= Backfill.BATCH_SIZE
    {
      hide Reaches, Was, IsRun, After, NodeAt, IsTick, Wanted, Backfill.Requests, HeldHeights, Step, Enabled, RangesOf,
           Backfill.Retained, Backfill.Missing, Backfill.First, Backfill.Flatten;
      sent, task, trace, c := [], task0, trace0, Ticking(|trace0|, |trace0|, 0, 0, []);
      NoneFlat();
      var tip := height;
      ghost var tipNode := View();
      WasNow(m, s, trace, System(View(), task));
      task, trace := Yield(task, gaps[0], Free, s, trace);
      var target := Min(maxSeen, tip + Backfill.MAX_SPAN);
      ghost var seen, t1 := View(), trace;
      WasNow(m, s, trace, System(View(), task));
      WasStill(m, s, trace0, trace, |trace0|, tipNode, System(View(), task));
      c := c.(seenAt := |trace|);
      WasNode(m, s, trace, c.tipAt, tipNode);
      WasNode(m, s, trace, c.seenAt, seen);
      if target <= tip {
        return false, [], task, trace, c;
      }
      looked := true;
      sent, task, trace, c :=
        LookAbove(tip, target, now, stamps, gaps[1], gaps[2], wired, task, s, trace, c, tipNode, seen);
    }

    /** The rest of it, for a tip and a target above it. */
    method LookAbove(tip: nat, target: nat, now: nat, stamps: seq<nat>, gap: seq<Event>, gap': seq<Event>, wired: bool,
                     task0: Task, ghost s: System, ghost trace0: seq<Event>, ghost c0: Ticking, ghost tipNode: Node,
                     ghost seen: Node)
        returns (sent: seq<Backfill.Range>, task: Task, ghost trace: seq<Event>, ghost c: Ticking)
      requires Reaches(m, s, trace0, System(View(), task0)) && c0.tipAt <= c0.seenAt <= |trace0|
      requires Was(m, s, trace0, c0.tipAt, tipNode) && Was(m, s, trace0, c0.seenAt, seen)
      requires tip == tipNode.height && tip < target == Min(seen.maxSeen, tip + Backfill.MAX_SPAN)
      modifies this
      ensures Reaches(m, s, trace, System(View(), task)) && IsRun(m, s, trace) && trace0 <= trace
      ensures c.tipAt == c0.tipAt && c.seenAt == c0.seenAt && IsTick(m, s, trace, now, c)
      ensures c.seenAt <= |trace| && NodeAt(m, s, trace, c.seenAt) == seen && NodeAt(m, s, trace, c.tipAt) == tipNode
      ensures Backfill.Flatten(sent) == if wired then Wanted(m, s, trace, now, c) else []
      ensures forall r <- sent :: 0 < r.count <= Backfill.BATCH_SIZE
    {
      hide Reaches, Was, IsRun, After, NodeAt, IsTick, Wanted, Backfill.Requests, HeldHeights, Step, Enabled, RangesOf,
           Backfill.Retained, Backfill.Missing, Backfill.First, Backfill.Flatten, Min;
      task, trace := Yield(task0, gap, Free, s, trace0);
      var held := (set d | d in pending :: pending[d].height) + store.byHeight.Keys;
      ghost var heldNode, t2 := View(), trace;
      HeldIs(heldNode);
      WasNow(m, s, trace, System(View(), task));
      task, trace := Yield(task, gap', Free, s, trace);
      ghost var checked, t3 := View(), trace;
      WasNow(m, s, trace, System(View(), task));
      ghost var marked;
      sent, task, trace, marked := AskPeers(tip, target, held, now, stamps, wired, task, s, trace);
      c := Ticking(c0.tipAt, c0.seenAt, |t2|, |t3|, marked);
      ghost var t := System(View(), task);
      WasStill(m, s, trace0, trace, c.tipAt, tipNode, t);
      WasStill(m, s, trace0, trace, c.seenAt, seen, t);
      WasStill(m, s, t2, trace, |t2|, heldNode, t);
      WasStill(m, s, t3, trace, |t3|, checked, t);
      RequestsAre(tip, seen.maxSeen, held, checked.requestedHeights, now);
      TickIs(m, s, trace, now, c, tipNode, seen, heldNode, checked);
      WasNode(m, s, trace, c.tipAt, tipNode);
      WasNode(m, s, trace, c.seenAt, seen);
    }

    /** The check of a tick, and its requests. */
    method AskPeers(tip: nat, target: nat, held: set<nat>, now: nat, stamps: seq<nat>, wired: bool, task0: Task,
                    ghost s: System, ghost trace0: seq<Event>)
        returns (sent: seq<Backfill.Range>, task: Task, ghost trace: seq<Event>, ghost marked: seq<nat>)
      requires tip < target && Reaches(m, s, trace0, System(View(), task0))
      modifies this
      ensures Reaches(m, s, trace, System(View(), task)) && trace0 + [CheckMarks(now)] <= trace
      ensures forall k :: 0 <= k < |marked| ==> |trace0| < marked[k] < |trace| && trace[marked[k]].Mark?
      ensures Backfill.Flatten(RangesOf(trace, marked)) ==
              Backfill.First(Backfill.Missing(held, Backfill.Retained(old(requestedHeights), now), now, tip + 1,
                                              target + 1), Backfill.TICK_BUDGET)
      ensures Backfill.Flatten(sent) == if wired then Backfill.Flatten(RangesOf(trace, marked)) else []
      ensures forall r <- sent :: 0 < r.count <= Backfill.BATCH_SIZE
    {
      hide Reaches, RangesOf, Backfill.Retained, Backfill.Missing, Backfill.First, Backfill.Flatten;
      var kept := Backfill.Retained(requestedHeights, now);
      trace := KeepMarks(now, task0, s, trace0);
      var runs := Backfill.CollectRuns(held, kept, now, tip, target);
      var asked := Backfill.SpendBudget(runs);
      sent, task, trace, marked := RequestAll(asked, stamps, wired, task0, s, trace);
    }

    /** The marks kept by a tick's check. */
    method KeepMarks(now: nat, task: Task, ghost s: System, ghost trace0: seq<Event>) returns (ghost trace: seq<Event>)
      requires Reaches(m, s, trace0, System(View(), task))
      modifies this
      ensures trace == trace0 + [CheckMarks(now)] && Reaches(m, s, trace, System(View(), task))
    {
      hide Reaches, Backfill.Retained;
      ReachesNext(m, s, trace0, System(View(), task), CheckMarks(now));
      requestedHeights := Backfill.Retained(requestedHeights, now);
      trace := trace0 + [CheckMarks(now)];
    }

    /** `request_height_range`, for every range of a tick: mark the heights, then send. */
    method RequestAll(asked: seq<Backfill.Range>, stamps: seq<nat>, wired: bool, task0: Task, ghost s: System,
                      ghost trace0: seq<Event>)
        returns (sent: seq<Backfill.Range>, task: Task, ghost trace: seq<Event>, ghost marked: seq<nat>)
      requires Reaches(m, s, trace0, System(View(), task0))
      modifies this
      ensures Reaches(m, s, trace, System(View(), task)) && trace0 <= trace
      ensures forall k :: 0 <= k < |marked| ==> |trace0| <= marked[k] < |trace| && trace[marked[k]].Mark?
      ensures RangesOf(trace, marked) == asked
      ensures Backfill.Flatten(sent) == if wired then Backfill.Flatten(asked) else []
      ensures forall r <- sent :: 0 < r.count <= Backfill.BATCH_SIZE
    {
      hide Reaches, Backfill.MarkAll, Backfill.Heights;
      sent, task, trace, marked := [], task0, trace0, [];
      for i := 0 to |asked|
        invariant Reaches(m, s, trace, System(View(), task)) && trace0 <= trace
        invariant forall k :: 0 <= k < |marked| ==> |trace0| <= marked[k] < |trace| && trace[marked[k]].Mark?
        invariant RangesOf(trace, marked) == asked[..i]
        invariant Backfill.Flatten(sent) == if wired then Backfill.Flatten(asked[..i]) else []
        invariant forall r <- sent :: 0 < r.count <= Backfill.BATCH_SIZE
      {
        var r, stamp := asked[i], if i < |stamps| then stamps[i] else 0;
        ReachesNext(m, s, trace, System(View(), task), Mark(r, stamp));
        requestedHeights := Backfill.MarkAll(requestedHeights, Backfill.Heights(r), stamp);
        RangesStill(trace, trace + [Mark(r, stamp)], marked);
        marked, trace := marked + [|trace|], trace + [Mark(r, stamp)];
        assert RangesOf(trace, marked) == asked[..i] + [r] == asked[..i + 1];
        if wired {
          var part := Backfill.SplitRange(r.start, r.count);
          Backfill.FlattenAppend(sent, part);
          assert asked[..i + 1][..i] == asked[..i];
          sent := sent + part;
        }
      }
      assert asked[..|asked|] == asked;
    }

    /** `execute_payload`. */
    method ExecuteOne(p: Payload, io: P.Io) returns (r: Option<(nat, nat)>)
      modifies this
      ensures match ExecutePayload(m, old(View()), p, io)
              case None => r == None && View() == old(View())
              case Some(n) => r == Some((n.height, p.timeNanos)) && View() == n
    {
      hide P.PutWith, Commit;
      var next := Commit(m, app, p, height + 1);
      if next.None? {
        return None;
      }
      app := next.value;
      height := height + 1;
      last := Of(p);
      store := P.PutWith(store, p, true, io).0;
      return Some((height, p.timeNanos));
    }

    /** An await inside a `finalize` call. */
    method Await(task: Task, events: seq<Event>, ghost s: System, ghost d: Digest, ghost trace0: seq<Event>)
        returns (ghost trace: seq<Event>)
      requires InCall(m, s, d, trace0, System(View(), task))
      modifies this
      ensures InCall(m, s, d, trace, System(View(), task))
    {
      ghost var t := System(View(), task);
      var task';
      task', trace := Yield(task, events, Alone, s, trace0);
      CallYields(m, s, d, trace0, trace, t, System(View(), task));
    }

    /** The walk of `finalize`: follow parent links from `digest` to the tip. Before the
        k-th lookup other tasks perform `polls[k]`; when they run out, the deadline has
        passed. `polls[k].1` says whether a miss repeats the fetch request. */
    method Walk(digest: Digest, polls: seq<(seq<Event>, bool)>, ghost g: App, ghost s: System, ghost trace0: seq<Event>)
        returns (found: Option<seq<Payload>>, ghost trace: seq<Event>)
      requires Inv(m, g, s)
      requires InCall(m, s, digest, trace0, System(View(), Walking(digest, last, height, digest, [])))
      modifies this
      ensures last == old(last)
      ensures found.None? && Executed(m, g, digest).Some? && Ancestor(last, digest) ==> Misses(View(), last, digest)
      ensures match found
              case None => InCall(m, s, digest, trace, System(View(), Idle))
              case Some(chain) =>
                InCall(m, s, digest, trace, System(View(), Executing(digest, last, height, chain, 0)))
    {
      hide InCall, Inv, PollWalk, P.Get, Lookup;
      trace := trace0;
      var tipHeight, tip := height, last;
      var chain: seq<Payload> := [];
      var cursor := digest;
      var k := 0;
      while cursor != tip
        invariant k <= |polls| && tip == last == old(last) && tipHeight == height
        invariant InCall(m, s, digest, trace, System(View(), Walking(digest, tip, tipHeight, cursor, chain)))
        decreases |polls| - k, cursor
      {
        var task := Walking(digest, tip, tipHeight, cursor, chain);
        var ask := false;
        if k < |polls| {
          trace := Await(task, polls[k].0, s, digest, trace);
          ask := polls[k].1;
        }
        ghost var t := System(View(), task);
        CallKeepsInv(m, g, s, digest, trace, t);
        WalkingTip(m, g, t);
        var p := LookupPayload(cursor);
        PollUnfold(View(), task, ask);
        if p.None? && k == |polls| {
          CallContinues(m, s, digest, trace, t, WalkGiveUp);
          trace := trace + [WalkGiveUp];
          WalkingCursor(m, g, t);
          return None, trace;
        }
        InvLookup(m, g, t, cursor);
        CallContinues(m, s, digest, trace, t, WalkPoll(ask));
        trace := trace + [WalkPoll(ask)];
        match p {
          case None =>
            if ask {
              RequestFromPeers(cursor);
            }
          case Some(payload) =>
            if payload.height <= tipHeight {
              NoHaltOnPath(m, g, t, WalkPoll(ask));
              return None, trace;
            }
            cursor := payload.parent;
            chain := [payload] + chain;
        }
        if k < |polls| {
          k := k + 1;
        }
      }
      ghost var t := System(View(), Walking(digest, tip, tipHeight, cursor, chain));
      PollUnfold(View(), t.task, false);
      CallContinues(m, s, digest, trace, t, WalkPoll(false));
      trace := trace + [WalkPoll(false)];
      return Some(chain), trace;
    }

    /** The execution loop of `finalize`, oldest block first. Before block `i` other
        tasks perform `gaps[i].0`; `gaps[i].1` is how far its disk write gets. */
    method ExecuteChain(digest: Digest, chain: seq<Payload>, gaps: seq<(seq<Event>, P.Io)>,
                        ghost g: App, ghost s: System, ghost trace0: seq<Event>)
        returns (r: Option<(nat, nat)>, ghost trace: seq<Event>)
      requires Inv(m, g, s)
      requires InCall(m, s, digest, trace0, System(View(), Executing(digest, last, height, chain, 0)))
      modifies this
      ensures InCall(m, s, digest, trace, System(View(), Idle))
      ensures r.Some? <==> last == digest
      ensures r.Some? ==> digest.Of? && r.value == (digest.payload.height, digest.payload.timeNanos)
      ensures Executed(m, g, digest).Some? && Ancestor(old(last), digest) ==> r.Some?
    {
      hide InCall, Inv, ExecuteBlock, ExecutePayload, CleanUp, Returned, Executed, Ancestor, P.PruneBelow, P.Get;
      trace := trace0;
      r := None;
      var tip, tipHeight := last, height;
      for i := 0 to |chain|
        invariant InCall(m, s, digest, trace, System(View(), Executing(digest, tip, tipHeight, chain, i)))
        invariant i > 0 ==> r == Some((height, chain[i - 1].timeNanos))
      {
        var task := Executing(digest, tip, tipHeight, chain, i);
        var io := P.Done;
        if i < |gaps| {
          trace := Await(task, gaps[i].0, s, digest, trace);
          io := gaps[i].1;
        }
        ghost var t := System(View(), task);
        CallKeepsInv(m, g, s, digest, trace, t);
        ExecuteUnfold(m, View(), task, io);
        CallContinues(m, s, digest, trace, t, ExecuteNext(io));
        trace := trace + [ExecuteNext(io)];
        var payload := chain[i];
        if payload.height != tipHeight + 1 + i || payload.stateRoot != m.root(app.kv) {
          ReturnsIffArrived(m, g, t, ExecuteNext(io));
          NotReturned(t, ExecuteNext(io));
          NoHaltOnPath(m, g, t, ExecuteNext(io));
          return None, trace;
        }
        pending := pending - {Of(payload)};
        r := ExecuteOne(payload, io);
        if r.None? {
          ReturnsIffArrived(m, g, t, ExecuteNext(io));
          NotReturned(t, ExecuteNext(io));
          NoHaltOnPath(m, g, t, ExecuteNext(io));
          return None, trace;
        }
      }
      ghost var t := System(View(), Executing(digest, tip, tipHeight, chain, |chain|));
      CallKeepsInv(m, g, s, digest, trace, t);
      CallContinues(m, s, digest, trace, t, FinalizeEnd);
      trace := trace + [FinalizeEnd];
      ReturnsIffArrived(m, g, t, FinalizeEnd);
      ArrivedByExecuting(m, g, t);
      CleanUpUnfold(View());
      pending := map d | d in pending && pending[d].height > height :: pending[d];
      store := P.PruneBelow(store, SubSat(height, P.RETAIN_HEIGHTS));
    }

    /** `finalize`: walk back to the executed tip, then apply. Whatever other tasks do
        meanwhile, the executed blocks are a prefix of the path from the tip to
        `digest`; the result is present iff the tip moved to `digest`, and is then its
        height and timestamp; a block already executed changes nothing; and an
        executable descendant of the tip is reached unless a payload is missing. */
    method Finalize(digest: Digest, polls: seq<(seq<Event>, bool)>, gaps: seq<(seq<Event>, P.Io)>, ghost g: App)
        returns (r: Option<(nat, nat)>, ghost trace: seq<Event>)
      requires Inv(m, g, System(View(), Idle))
      modifies this
      ensures InCall(m, System(old(View()), Idle), digest, trace, System(View(), Idle))
      ensures Inv(m, g, System(View(), Idle))
      ensures last == old(last) ||
              (Ancestor(old(last), digest) && Ancestor(old(last), last) &&
               PathFrom(old(last), last) <= PathFrom(old(last), digest))
      ensures r.Some? <==> (last == digest && old(last) != digest)
      ensures r.Some? ==> digest.Of? && r.value == (digest.payload.height, digest.payload.timeNanos)
      ensures Ancestor(digest, old(last)) ==> last == old(last)
      ensures Executed(m, g, digest).Some? && Ancestor(old(last), digest) && old(last) != digest && r.None? ==>
                Misses(View(), old(last), digest)
    {
      hide InCall, Inv;
      ghost var s := System(View(), Idle);
      CallStarts(m, s, digest);
      trace := [FinalizeStart(digest)];
      if digest == last {
        CallEnds(m, g, s, digest, trace, s);
        return None, trace;
      }
      var found;
      found, trace := Walk(digest, polls, g, s, trace);
      if found.None? {
        CallEnds(m, g, s, digest, trace, System(View(), Idle));
        return None, trace;
      }
      r, trace := ExecuteChain(digest, found.value, gaps, g, s, trace);
      CallEnds(m, g, s, digest, trace, System(View(), Idle));
    }
  }
}
