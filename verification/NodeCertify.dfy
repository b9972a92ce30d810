/** The certify guard: a walk down the executed chain that awaits at every hop, and the
    put that follows it. Only the put changes the node; a call is told by the points of
    the run at which it read the tip and looked up each block. */
module NodeCertify {
  import opened Common
  import opened Chain
  import opened Node
  import opened NodeSafety
  import opened NodeTheorems
  import opened NodeStaging
  import P = PayloadStore

  // ----- the walk -----

  /** The digest a walk looks up next, and the height its block should have. */
  datatype Walker = Walker(d: Digest, h: nat)

  /** One hop: down to the parent, unless the block is missing or of another height. */
  function Hop(n: Node, v: Walker): Option<Walker> {
    match Lookup(n, v.d)
    case None => None
    case Some(anc) => if anc.height != v.h || v.h == 0 then None else Some(Walker(anc.parent, v.h - 1))
  }

  ghost predicate AllWithin(events: seq<Event>, at: seq<nat>) {
    forall k :: 0 <= k < |at| ==> at[k] <= |events|
  }

  /** Hops from `w`; the k-th looks its block up before event `at[k]`. */
  ghost function Walk(m: Machine, s: System, events: seq<Event>, w: Walker, at: seq<nat>): Option<Walker>
    requires IsRun(m, s, events) && AllWithin(events, at)
    decreases |at|
  {
    if at == [] then Some(w)
    else
      var k := |at| - 1;
      match Walk(m, s, events, w, at[..k])
      case None => None
      case Some(v) => Hop(NodeAt(m, s, events, at[k]), v)
  }

  /** When one call of `consistent_with_executed_chain` read the tip and made its hops. */
  datatype Guard = Guard(tipAt: nat, hops: seq<nat>)

  ghost predicate InRun(events: seq<Event>, c: Guard) {
    && c.tipAt <= |events|
    && (forall k :: 0 <= k < |c.hops| ==> c.tipAt <= c.hops[k] <= |events|)
  }

  function Start(n: Node): Walker {
    Walker(n.last, n.height)
  }

  /** How many hops a walk that finds every block makes. */
  function Depth(n: Node, p: Payload): nat {
    if p.height >= n.height then 0 else Min(EXECUTED_WALK_MAX, n.height - p.height)
  }

  /** `c` is a whole call: it hops until it is down at the candidate's height, out of hops,
      or without a block. */
  ghost predicate IsGuard(m: Machine, s: System, events: seq<Event>, p: Payload, c: Guard)
    requires IsRun(m, s, events)
  {
    && InRun(events, c)
    && var n := NodeAt(m, s, events, c.tipAt);
       && |c.hops| <= Depth(n, p)
       && (c.hops != [] ==> Walk(m, s, events, Start(n), c.hops[..|c.hops| - 1]).Some?)
       && (Walk(m, s, events, Start(n), c.hops).Some? ==> |c.hops| == Depth(n, p))
  }

  /** What the call answers: above the tip, or cut short, nothing. */
  ghost function GuardAnswer(m: Machine, s: System, events: seq<Event>, p: Payload, c: Guard): Option<bool>
    requires IsRun(m, s, events) && InRun(events, c)
  {
    var n := NodeAt(m, s, events, c.tipAt);
    if p.height > n.height then None
    else
      match Walk(m, s, events, Start(n), c.hops)
      case None => None
      case Some(v) => if v.h <= p.height then Some(v.d == Of(p)) else None
  }

  // ----- the answer is exact -----

  ghost predicate OnChain(m: Machine, g: App, w: Walker) {
    Executed(m, g, w.d).Some? && Executed(m, g, w.d).value.height == w.h
  }

  lemma HopStays(m: Machine, g: App, s: System, v: Walker)
    requires Inv(m, g, s) && OnChain(m, g, v) && Hop(s.node, v).Some?
    ensures var u := Hop(s.node, v).value;
            v.h == u.h + 1 && v.d.Of? && v.d.payload.parent == u.d && OnChain(m, g, u)
  {
    hide P.Valid, P.Get, CacheOk, TaskOk, PendingOk;
    InvLookup(m, g, s, v.d);
    ExecutedShape(m, g, v.d);
  }

  /** Whenever the blocks are looked up, the walk stays on the chain it started on. */
  lemma {:induction false} WalkStays(m: Machine, g: App, s: System, events: seq<Event>, w: Walker, at: seq<nat>)
    requires Inv(m, g, s) && IsRun(m, s, events) && AllWithin(events, at) && OnChain(m, g, w)
    ensures var r := Walk(m, s, events, w, at);
            r.Some? ==> Ancestor(r.value.d, w.d) && OnChain(m, g, r.value) && r.value.h + |at| == w.h
    decreases |at|
  {
    hide Inv, IsRun, OnChain, Hop;
    if at != [] {
      var k := |at| - 1;
      WalkStays(m, g, s, events, w, at[..k]);
      var before := Walk(m, s, events, w, at[..k]);
      if before.Some? && Hop(NodeAt(m, s, events, at[k]), before.value).Some? {
        var t := InvAt(m, g, s, events, at[k]);
        HopStays(m, g, t, before.value);
        ParentIsAncestor(before.value.d);
        AncestorTransitive(before.value.d.payload.parent, before.value.d, w.d);
      }
    }
  }

  lemma ParentIsAncestor(d: Digest)
    requires d.Of?
    ensures Ancestor(d.payload.parent, d)
  {
  }

  /** The app's record holds `p`. */
  predicate Recorded(n: Node, p: Payload) {
    p.height in n.app.payloads && n.app.payloads[p.height] == p
  }

  /** Executed heights are settled: a longer chain has the same blocks there. */
  lemma SettledHeight(m: Machine, g: App, p: Payload, a: Digest, b: Digest)
    requires IsGenesis(g) && Executed(m, g, b).Some? && Ancestor(a, b) && p.height <= |ChainOf(a)|
    ensures Ancestor(Of(p), b) <==> Ancestor(Of(p), a)
  {
    hide Executed;
    if Ancestor(Of(p), a) {
      AncestorTransitive(Of(p), a, b);
    }
    if Ancestor(Of(p), b) {
      AncestorsComparable(Of(p), a, b);
      if Ancestor(a, Of(p)) {
        ExecutedAncestor(m, g, Of(p), b);
        HeightIsPosition(m, g, Of(p));
        ExecutedAncestor(m, g, a, Of(p));
      }
    }
  }

  lemma AncestorAtHeight(m: Machine, g: App, p: Payload, d: Digest, tip: Digest)
    requires IsGenesis(g) && Executed(m, g, tip).Some? && Ancestor(d, tip)
    requires Executed(m, g, d).Some? && Executed(m, g, d).value.height == p.height
    ensures d == Of(p) <==> Ancestor(Of(p), tip)
  {
    hide Executed;
    if Ancestor(Of(p), tip) {
      SelfAncestor(d);
      ExecutedAncestor(m, g, d, d);
      SettledHeight(m, g, p, d, tip);
      ExecutedAncestor(m, g, Of(p), tip);
      HeightIsPosition(m, g, Of(p));
      ExecutedAncestor(m, g, Of(p), d);
    }
  }

  /** A payload is an ancestor of the tip iff the app recorded it at its height. */
  lemma OnChainIffRecorded(m: Machine, g: App, n: Node, p: Payload)
    requires IsGenesis(g) && TipOk(m, g, n.app, n.height, n.last)
    ensures Ancestor(Of(p), n.last) <==> p.height in n.app.payloads && n.app.payloads[p.height] == p
  {
    ExecutedShape(m, g, n.last);
    if Ancestor(Of(p), n.last) {
      ExecutedAncestor(m, g, Of(p), n.last);
      HeightIsPosition(m, g, Of(p));
      ChainSplits(Of(p), n.last);
      LastOfChain(Of(p));
    }
    if p.height in n.app.payloads && n.app.payloads[p.height] == p {
      InChainIsAncestor(n.last, p.height - 1);
    }
  }

  lemma {:induction false} InChainIsAncestor(d: Digest, i: nat)
    requires i < |ChainOf(d)|
    ensures Ancestor(Of(ChainOf(d)[i]), d)
    decreases d
  {
    if d.Of? && i < |ChainOf(d.payload.parent)| {
      InChainIsAncestor(d.payload.parent, i);
    }
  }

  lemma TipRecord(m: Machine, g: App, s: System, p: Payload)
    requires Inv(m, g, s)
    ensures Recorded(s.node, p) <==> Ancestor(Of(p), s.node.last)
    ensures Executed(m, g, s.node.last).Some? && s.node.height == |ChainOf(s.node.last)| && IsGenesis(g)
    ensures OnChain(m, g, Start(s.node))
  {
    hide P.Valid, CacheOk, TaskOk, PendingOk;
    OnChainIffRecorded(m, g, s.node, p);
    TipHeight(m, g, s);
  }

  /** `Some(b)` from the guard, however its hops interleave with other tasks: b is exactly
      whether the candidate is the executed block at its height, when the tip was read
      and at every later point. */
  lemma GuardIsExact(m: Machine, g: App, s: System, events: seq<Event>, p: Payload, c: Guard, j: nat)
    requires Inv(m, g, s) && IsRun(m, s, events) && IsGuard(m, s, events, p, c) && c.tipAt <= j <= |events|
    ensures var r := GuardAnswer(m, s, events, p, c);
            r.Some? ==> (r.value <==> Recorded(NodeAt(m, s, events, j), p))
  {
    hide Inv, IsRun, NodeAt, Recorded, Executed, Walk;
    var tip := InvAt(m, g, s, events, c.tipAt);
    var later := InvAt(m, g, s, events, j);
    if GuardAnswer(m, s, events, p, c).Some? {
      TipRecord(m, g, tip, p);
      TipRecord(m, g, later, p);
      WalkStays(m, g, s, events, Start(tip.node), c.hops);
      var v := Walk(m, s, events, Start(tip.node), c.hops).value;
      TipGrowsBetween(m, g, s, events, c.tipAt, j);
      AncestorAtHeight(m, g, p, v.d, tip.node.last);
      SettledHeight(m, g, p, tip.node.last, later.node.last);
    }
  }

  // ----- executed payloads are retained -----

  /** Executed payloads inside the retention window are on disk. */
  ghost predicate Held(n: Node) {
    && n.store.persistent
    && forall d: Digest :: d.Of? && Ancestor(d, n.last) && d.payload.height >= SubSat(n.height, P.RETAIN_HEIGHTS) ==>
         d in n.store.index
  }

  /** No write of an executed payload failed. */
  ghost predicate WritesSucceed(events: seq<Event>) {
    forall e <- events :: e.ExecuteNext? ==> e.io == P.Done
  }

  lemma PutKeepsIndexed(store: P.Disk, p: Payload, canonical: bool, io: P.Io)
    ensures var t := P.PutWith(store, p, canonical, io).0;
            && t.persistent == store.persistent
            && (forall d <- store.index :: d in t.index && t.index[d] == store.index[d])
            && (store.persistent && io == P.Done ==> Of(p) in t.index)
  {
  }

  lemma ExecuteKeepsHeld(m: Machine, g: App, s: System, io: P.Io)
    requires Inv(m, g, s) && Held(s.node) && Enabled(s, ExecuteNext(io)) && io == P.Done
    ensures Held(ExecuteBlock(m, s.node, s.task, io).node)
  {
    hide P.Valid, P.PutWith, P.Get, CacheOk, PendingOk, TaskOk, Executed, Commit;
    var n, p := s.node, s.task.chain[s.task.done];
    NextOnPath(n.last, n.height, s.task);
    PutKeepsIndexed(n.store, p, true, io);
  }

  lemma CleanUpKeepsHeld(n: Node)
    requires P.Valid(n.store) && Held(n)
    ensures Held(CleanUp(n))
  {
    var bound := SubSat(n.height, P.RETAIN_HEIGHTS);
    forall d: Digest | d.Of? && Ancestor(d, n.last) && d.payload.height >= bound
      ensures d in CleanUp(n).store.index
    {
      assert d in n.store.index;
    }
  }

  lemma RestartKeepsHeld(m: Machine, g: App, s: System, listing: seq<P.File>)
    requires Inv(m, g, s) && Held(s.node) && Enabled(s, Restart(listing))
    ensures Held(Restarted(s.node, listing))
  {
    hide P.Opened, P.Get, CacheOk, PendingOk, TaskOk, P.IsListing;
    ResumeIsTip(m, g, s.node);
    P.OpenedValid(s.node.store.dir, listing);
    forall d <- s.node.store.index
      ensures d in P.Opened(s.node.store.dir, listing).index
    {
      P.IndexMirrorsDirectory(s.node.store, d);
    }
  }

  lemma StepKeepsHeld(m: Machine, g: App, s: System, e: Event)
    requires Inv(m, g, s) && Held(s.node) && Enabled(s, e) && (e.ExecuteNext? ==> e.io == P.Done)
    ensures Held(Step(m, s, e).node)
  {
    hide P.Valid, P.PutWith, P.Get, CacheOk, PendingOk, TaskOk, TipOk, ExecuteBlock, CleanUp, Restarted, Buffered,
      Simulate, CacheStaged, Ancestor;
    match e
    case ExecuteNext(io) => ExecuteKeepsHeld(m, g, s, io);
    case FinalizeEnd => CleanUpKeepsHeld(s.node);
    case Restart(listing) => RestartKeepsHeld(m, g, s, listing);
    case CertifyPut(p, io) => PutKeepsIndexed(s.node.store, p, false, io);
    case Admit(p, solicited, near, victim) => BufferedFrame(s.node, p, solicited, near, victim);
    case _ =>
  }

  lemma {:induction false} RunKeepsHeld(m: Machine, g: App, s: System, events: seq<Event>)
    requires Inv(m, g, s) && Held(s.node) && IsRun(m, s, events) && WritesSucceed(events)
    ensures Held(After(m, s, events).node)
    decreases |events|
  {
    if events != [] {
      hide Step, Enabled, Held, Inv;
      var k := |events| - 1;
      assert events[k] in events;
      RunKeepsInv(m, g, s, events[..k]);
      RunKeepsHeld(m, g, s, events[..k]);
      StepKeepsHeld(m, g, After(m, s, events[..k]), events[k]);
    }
  }

  lemma InitialHeld(g: App, s: System)
    requires IsInitial(g, s) && s.node.store.persistent
    ensures Held(s.node)
  {
  }

  // ----- the guard answers -----

  /** While no hop looks further back than the retention window, the walk finds every
      block. */
  ghost predicate InWindow(m: Machine, s: System, events: seq<Event>, p: Payload, c: Guard)
    requires IsRun(m, s, events) && InRun(events, c)
  {
    && NodeAt(m, s, events, c.tipAt).height <= p.height + EXECUTED_WALK_MAX
    && (forall k :: 0 <= k < |c.hops| ==> NodeAt(m, s, events, c.hops[k]).height <= p.height + P.RETAIN_HEIGHTS)
  }

  lemma HopFinds(m: Machine, g: App, s: System, v: Walker, bound: nat)
    requires Inv(m, g, s) && Held(s.node) && OnChain(m, g, v) && Ancestor(v.d, s.node.last)
    requires bound < v.h && s.node.height <= bound + P.RETAIN_HEIGHTS
    ensures Hop(s.node, v).Some?
  {
    hide P.Valid, P.Get, CacheOk, TaskOk, PendingOk, Ancestor;
    ExecutedShape(m, g, v.d);
    HeightIsPosition(m, g, v.d);
    assert v.d in s.node.store.index;
    P.GetReadsBack(s.node.store, v.d);
    InvLookup(m, g, s, v.d);
  }

  lemma HeldAt(m: Machine, g: App, s: System, events: seq<Event>, i: nat)
    requires IsInitial(g, s) && s.node.store.persistent && IsRun(m, s, events) && WritesSucceed(events) && i <= |events|
    ensures Held(NodeAt(m, s, events, i))
  {
    hide IsRun, Held, Inv, After;
    InitialInv(m, g, s);
    InitialHeld(g, s);
    PrefixRuns(m, s, events, i);
    RunKeepsHeld(m, g, s, events[..i]);
  }

  /** On a node with a disk whose writes succeed, the guard reaches an answer for every
      candidate within 8,192 of the tip it read, however its hops interleave, as long as
      no hop is made 65,536 blocks above the candidate. */
  lemma GuardAnswers(m: Machine, g: App, s: System, events: seq<Event>, p: Payload, c: Guard)
    requires IsInitial(g, s) && s.node.store.persistent && IsRun(m, s, events) && WritesSucceed(events)
    requires IsGuard(m, s, events, p, c) && InWindow(m, s, events, p, c)
    requires p.height <= NodeAt(m, s, events, c.tipAt).height
    ensures GuardAnswer(m, s, events, p, c).Some?
  {
    hide Inv, IsRun, NodeAt, IsInitial, Executed, OnChain, Walk, InWindow, WritesSucceed;
    InitialInv(m, g, s);
    var tip := InvAt(m, g, s, events, c.tipAt);
    TipRecord(m, g, tip, p);
    WalkStays(m, g, s, events, Start(tip.node), c.hops);
    WindowAtTip(m, s, events, p, c);
    if c.hops != [] {
      LastHopFinds(m, g, s, events, p, c);
    } else {
      NoHops(m, s, events, Start(tip.node));
    }
  }

  lemma NoHops(m: Machine, s: System, events: seq<Event>, w: Walker)
    requires IsRun(m, s, events)
    ensures Walk(m, s, events, w, []) == Some(w)
  {
  }

  lemma WindowAtTip(m: Machine, s: System, events: seq<Event>, p: Payload, c: Guard)
    requires IsRun(m, s, events) && InRun(events, c) && InWindow(m, s, events, p, c)
    ensures NodeAt(m, s, events, c.tipAt).height <= p.height + EXECUTED_WALK_MAX
    ensures c.hops != [] ==> NodeAt(m, s, events, c.hops[|c.hops| - 1]).height <= p.height + P.RETAIN_HEIGHTS
  {
    hide NodeAt;
  }

  lemma LastHop(m: Machine, s: System, events: seq<Event>, w: Walker, at: seq<nat>)
    requires IsRun(m, s, events) && AllWithin(events, at) && at != []
    requires Walk(m, s, events, w, at[..|at| - 1]).Some?
    ensures Walk(m, s, events, w, at) ==
            Hop(NodeAt(m, s, events, at[|at| - 1]), Walk(m, s, events, w, at[..|at| - 1]).value)
  {
    hide NodeAt, Hop;
  }

  lemma LastHopFinds(m: Machine, g: App, s: System, events: seq<Event>, p: Payload, c: Guard)
    requires IsInitial(g, s) && s.node.store.persistent && IsRun(m, s, events) && WritesSucceed(events)
    requires IsGuard(m, s, events, p, c) && InWindow(m, s, events, p, c) && c.hops != []
    ensures Walk(m, s, events, Start(NodeAt(m, s, events, c.tipAt)), c.hops).Some?
  {
    hide Inv, IsRun, NodeAt, IsInitial, Executed, Hop, Held, OnChain, Walk, InWindow, WritesSucceed, Ancestor;
    InitialInv(m, g, s);
    var tip := InvAt(m, g, s, events, c.tipAt);
    TipRecord(m, g, tip, p);
    var w, k := Start(tip.node), |c.hops| - 1;
    WindowAtTip(m, s, events, p, c);
    LastHop(m, s, events, w, c.hops);
    WalkStays(m, g, s, events, w, c.hops[..k]);
    var v := Walk(m, s, events, w, c.hops[..k]).value;
    var at := InvAt(m, g, s, events, c.hops[k]);
    TipGrowsBetween(m, g, s, events, c.tipAt, c.hops[k]);
    AncestorTransitive(v.d, tip.node.last, at.node.last);
    HeldAt(m, g, s, events, c.hops[k]);
    HopFinds(m, g, at, v, p.height);
  }

  /** The candidate is further below the tip that was read than the guard walks. */
  ghost predicate TooDeep(m: Machine, s: System, events: seq<Event>, p: Payload, c: Guard)
    requires IsRun(m, s, events) && InRun(events, c)
  {
    NodeAt(m, s, events, c.tipAt).height > p.height + EXECUTED_WALK_MAX
  }

  /** The last hop found its block neither in memory nor on disk. */
  ghost predicate Missed(m: Machine, s: System, events: seq<Event>, c: Guard)
    requires IsRun(m, s, events) && InRun(events, c)
  {
    c.hops != [] &&
    var w := Walk(m, s, events, Start(NodeAt(m, s, events, c.tipAt)), c.hops[..|c.hops| - 1]);
    w.Some? && Lookup(NodeAt(m, s, events, c.hops[|c.hops| - 1]), w.value.d).None?
  }

  lemma OnChainHops(m: Machine, g: App, s: System, v: Walker)
    requires Inv(m, g, s) && OnChain(m, g, v) && v.h > 0
    ensures Hop(s.node, v).Some? <==> Lookup(s.node, v.d).Some?
  {
    LookupMatches(s.node, v.d);
  }

  /** A walk fails iff its last hop missed. */
  lemma WalkFailsIff(m: Machine, g: App, s: System, events: seq<Event>, p: Payload, c: Guard)
    requires Inv(m, g, s) && IsRun(m, s, events) && IsGuard(m, s, events, p, c)
    ensures Walk(m, s, events, Start(NodeAt(m, s, events, c.tipAt)), c.hops).None? <==> Missed(m, s, events, c)
  {
    hide Inv, IsRun, NodeAt, Executed, Hop, OnChain, Walk, Lookup;
    var tip := InvAt(m, g, s, events, c.tipAt);
    TipRecord(m, g, tip, p);
    var w := Start(tip.node);
    if c.hops == [] {
      NoHops(m, s, events, w);
    } else {
      var k := |c.hops| - 1;
      LastHop(m, s, events, w, c.hops);
      WalkStays(m, g, s, events, w, c.hops[..k]);
      var v := Walk(m, s, events, w, c.hops[..k]).value;
      var at := InvAt(m, g, s, events, c.hops[k]);
      OnChainHops(m, g, at, v);
    }
  }

  /** When the guard gives no answer, exactly: the candidate is above the tip it read, or
      too deep below it, or a block of the walk was missing. */
  lemma GuardSilentIff(m: Machine, g: App, s: System, events: seq<Event>, p: Payload, c: Guard)
    requires Inv(m, g, s) && IsRun(m, s, events) && IsGuard(m, s, events, p, c)
    ensures GuardAnswer(m, s, events, p, c).None? <==>
            || p.height > NodeAt(m, s, events, c.tipAt).height
            || TooDeep(m, s, events, p, c) || Missed(m, s, events, c)
  {
    hide Inv, IsRun, NodeAt, Executed, OnChain, Walk, Missed;
    var tip := InvAt(m, g, s, events, c.tipAt);
    TipRecord(m, g, tip, p);
    WalkStays(m, g, s, events, Start(tip.node), c.hops);
    WalkFailsIff(m, g, s, events, p, c);
  }

  // ----- certify -----

  /** One call of `certify` that found its payload: when it looked it up, its guard, and
      when it decided; that is the event of its put, if it makes one. */
  datatype Call = Call(found: nat, guard: Guard, decided: nat)

  /** The payload was found, then the guard ran, then a put followed unless it refused. */
  ghost predicate IsCertify(m: Machine, s: System, events: seq<Event>, p: Payload, c: Call)
    requires IsRun(m, s, events)
  {
    && c.found <= c.guard.tipAt && IsGuard(m, s, events, p, c.guard)
    && Lookup(NodeAt(m, s, events, c.found), Of(p)) == Some(p)
    && c.guard.tipAt <= c.decided <= |events|
    && (forall k :: 0 <= k < |c.guard.hops| ==> c.guard.hops[k] <= c.decided)
    && (GuardAnswer(m, s, events, p, c.guard) != Some(false) ==>
          c.decided < |events| && events[c.decided].CertifyPut? && events[c.decided].p == p)
  }

  /** The put was made and reported success. */
  ghost predicate Persisted(m: Machine, s: System, events: seq<Event>, c: Call)
    requires IsRun(m, s, events)
  {
    && c.decided < |events| && events[c.decided].CertifyPut?
    && P.PutWith(NodeAt(m, s, events, c.decided).store, events[c.decided].p, false, events[c.decided].cio).1
  }

  /** What `certify` answers. */
  ghost predicate Answer(m: Machine, s: System, events: seq<Event>, p: Payload, c: Call)
    requires IsRun(m, s, events) && IsCertify(m, s, events, p, c)
  {
    GuardAnswer(m, s, events, p, c.guard) != Some(false) && Persisted(m, s, events, c)
  }

  /** Another block than `p` is executed at its height. */
  predicate IsRival(n: Node, p: Payload) {
    p.height in n.app.payloads && n.app.payloads[p.height] != p
  }

  /** A rival of an executed block is certified iff its put succeeds and its height was
      still above the tip when the guard read it, or too deep below, or a block of the
      walk was missing. */
  lemma RivalCertifiedIff(m: Machine, g: App, s: System, events: seq<Event>, p: Payload, c: Call)
    requires Inv(m, g, s) && IsRun(m, s, events) && IsCertify(m, s, events, p, c)
    requires IsRival(NodeAt(m, s, events, c.decided), p)
    ensures Answer(m, s, events, p, c) <==>
            && Persisted(m, s, events, c)
            && (|| p.height > NodeAt(m, s, events, c.guard.tipAt).height
                || TooDeep(m, s, events, p, c.guard) || Missed(m, s, events, c.guard))
  {
    hide IsRun, NodeAt, Walk, Inv, IsGuard, Persisted, TooDeep, Missed, GuardAnswer;
    GuardSilentIff(m, g, s, events, p, c.guard);
    GuardIsExact(m, g, s, events, p, c.guard, c.decided);
  }

  /** So `certify` backs a rival of a block that was executed when its guard read the tip
      only where the guard gives up, and never does inside its windows, on a disk whose
      writes succeed. */
  lemma CertifyNeverBacksARival(m: Machine, g: App, s: System, events: seq<Event>, p: Payload, c: Call)
    requires Inv(m, g, s) && IsRun(m, s, events) && IsCertify(m, s, events, p, c)
    requires IsRival(NodeAt(m, s, events, c.guard.tipAt), p)
    ensures Answer(m, s, events, p, c) <==>
            && Persisted(m, s, events, c)
            && (TooDeep(m, s, events, p, c.guard) || Missed(m, s, events, c.guard))
    ensures IsInitial(g, s) && s.node.store.persistent && WritesSucceed(events) && InWindow(m, s, events, p, c.guard)
            ==> !Answer(m, s, events, p, c)
  {
    assert InRun(events, c.guard);
    hide IsRun, NodeAt, IsInitial, Walk, Inv, InWindow, IsGuard, Persisted, TooDeep, Missed, GuardAnswer, WritesSucceed;
    var tip := InvAt(m, g, s, events, c.guard.tipAt);
    RecordedBelowTip(m, g, tip, p.height);
    GuardSilentIff(m, g, s, events, p, c.guard);
    GuardIsExact(m, g, s, events, p, c.guard, c.guard.tipAt);
    if IsInitial(g, s) && s.node.store.persistent && WritesSucceed(events) && InWindow(m, s, events, p, c.guard) {
      GuardAnswers(m, g, s, events, p, c.guard);
    }
  }

  /** The put of the call gets through: its payload is on disk already, there is no disk,
      or the write succeeds. */
  ghost predicate Storable(m: Machine, s: System, events: seq<Event>, p: Payload, c: Call)
    requires IsRun(m, s, events) && c.decided <= |events|
  {
    var store := NodeAt(m, s, events, c.decided).store;
    || P.Get(store, Of(p)) == Some(p) || !store.persistent
    || (c.decided < |events| && events[c.decided] == CertifyPut(p, P.Done))
  }

  /** What `certify` answers, exactly, to a call that found its payload: true iff the put
      gets through and the payload is the executed block of its height, or was above the
      tip when the guard read it, or too deep below it, or a block of the walk was
      missing. */
  lemma CertifiesIff(m: Machine, g: App, s: System, events: seq<Event>, p: Payload, c: Call)
    requires Inv(m, g, s) && IsRun(m, s, events) && IsCertify(m, s, events, p, c)
    ensures Answer(m, s, events, p, c) <==>
            && Storable(m, s, events, p, c)
            && (|| Recorded(NodeAt(m, s, events, c.decided), p)
                || p.height > NodeAt(m, s, events, c.guard.tipAt).height
                || TooDeep(m, s, events, p, c.guard) || Missed(m, s, events, c.guard))
  {
    assert InRun(events, c.guard);
    var at := InvAt(m, g, s, events, c.decided);
    GuardSilentIff(m, g, s, events, p, c.guard);
    GuardIsExact(m, g, s, events, p, c.guard, c.decided);
    if GuardAnswer(m, s, events, p, c.guard) != Some(false) {
      hide IsRun, NodeAt, Walk, IsGuard, TooDeep, Missed, GuardAnswer, Recorded, P.PutWith, P.Get, P.Valid, CacheOk,
           TaskOk;
      P.PutIsExact(at.node.store, p, false, events[c.decided].cio, Of(p));
      P.GetReadsBack(at.node.store, Of(p));
    }
  }

  /** So a payload that reads back from disk is certified whenever it is asked for, unless
      it is a rival of an executed block or claims height 0. */
  lemma HeldIsCertified(m: Machine, g: App, s: System, events: seq<Event>, p: Payload, c: Call)
    requires Inv(m, g, s) && IsRun(m, s, events) && IsCertify(m, s, events, p, c) && p.height > 0
    requires P.Get(NodeAt(m, s, events, c.decided).store, Of(p)) == Some(p)
    requires !IsRival(NodeAt(m, s, events, c.decided), p)
    ensures Answer(m, s, events, p, c)
  {
    assert InRun(events, c.guard);
    hide IsRun, NodeAt, Walk, Inv, IsGuard, TooDeep, Missed, GuardAnswer, P.Get, Answer;
    CertifiesIff(m, g, s, events, p, c);
    var tip := InvAt(m, g, s, events, c.guard.tipAt);
    var at := InvAt(m, g, s, events, c.decided);
    RecordedBelowTip(m, g, at, p.height);
    TipGrowsBetween(m, g, s, events, c.guard.tipAt, c.decided);
    HeightGrows(m, g, tip, at);
  }

  lemma HeightGrows(m: Machine, g: App, s: System, t: System)
    requires Inv(m, g, s) && Inv(m, g, t) && Ancestor(s.node.last, t.node.last)
    ensures s.node.height <= t.node.height
  {
    ExecutedAncestor(m, g, s.node.last, t.node.last);
    ExecutedShape(m, g, t.node.last);
  }

  lemma RecordedBelowTip(m: Machine, g: App, s: System, h: nat)
    requires Inv(m, g, s)
    ensures h in s.node.app.payloads <==> 1 <= h <= s.node.height
  {
    ExecutedShape(m, g, s.node.last);
  }

  /** A certified payload is on disk: `certify` answers true only once it reads back. */
  lemma CertifiedIsDurable(m: Machine, g: App, s: System, events: seq<Event>, p: Payload, c: Call)
    requires Inv(m, g, s) && IsRun(m, s, events) && IsCertify(m, s, events, p, c)
    requires NodeAt(m, s, events, c.decided).store.persistent && Answer(m, s, events, p, c)
    ensures P.Get(NodeAt(m, s, events, c.decided + 1).store, Of(p)) == Some(p)
  {
    hide IsRun, After, IsGuard, GuardAnswer, Inv, P.Get;
    var before := InvAt(m, g, s, events, c.decided);
    StepAt(m, s, events, c.decided + 1);
    PutReadsBack(m, g, before, p, events[c.decided].cio);
  }

  lemma PutReadsBack(m: Machine, g: App, s: System, p: Payload, io: P.Io)
    requires Inv(m, g, s) && s.node.store.persistent && P.PutWith(s.node.store, p, false, io).1
    ensures P.Get(P.PutWith(s.node.store, p, false, io).0, Of(p)) == Some(p)
  {
    hide P.Valid, P.Get, CacheOk, TaskOk, PendingOk, Executed;
    P.PutKeepsValid(s.node.store, p, false, io);
    P.GetReadsBack(P.PutWith(s.node.store, p, false, io).0, Of(p));
  }
}
