/** Concrete runs in which a documented property of the node fails. */
module NodeExamples {
  import opened Common
  import opened Merkle
  import opened Chain
  import opened Node
  import opened NodeSafety
  import opened NodeTheorems
  import opened NodeCertify
  import P = PayloadStore

  // ----- a node at genesis and its first block -----

  const ZEROS: Hash := [0, 0, 0, 0, 0, 0, 0, 0, 0, 0, 0, 0, 0, 0, 0, 0, 0, 0, 0, 0, 0, 0, 0, 0, 0, 0, 0, 0, 0, 0, 0, 0]

  const IDLE_APP: App := App(map[], 0, 0, map[])

  /** An app that keeps its state, and whose root is always zero. */
  ghost predicate IsIdle(m: Machine) {
    (forall kv, b :: m.run(kv, b) == Some(kv)) && (forall kv :: m.root(kv) == ZEROS)
  }

  lemma IdleMachine() returns (m: Machine)
    ensures IsIdle(m)
  {
    var root := ZEROS;
    m := Machine((kv, b) => Some(kv), kv => root);
  }

  function Fresh(pending: map<Digest, Payload>, persistent: bool): Node {
    Node(IDLE_APP, 0, Genesis, pending, P.Disk(persistent, map[], map[], map[]), {}, map[], map[], 0, {})
  }

  /** A child of genesis that claims height `h`; `t` tells siblings apart. */
  function Child(h: nat, t: nat): Payload {
    Payload(h, t, [], [], Genesis, ZEROS)
  }

  lemma FreshIsInitial(persistent: bool)
    ensures IsInitial(IDLE_APP, System(Fresh(map[], persistent), Idle))
  {
  }

  /** Two payloads made available at genesis. */
  lemma TwoInserted(m: Machine, persistent: bool, p: Payload, q: Payload) returns (events: seq<Event>)
    requires p != q
    ensures var s := System(Fresh(map[], persistent), Idle);
            && events == [Insert(p), Insert(q)] && IsRun(m, s, events)
            && After(m, s, events) == System(Fresh(map[Of(p) := p, Of(q) := q], persistent), Idle)
  {
    hide IsRun, After;
    var s := System(Fresh(map[], persistent), Idle);
    NoEvents(m, s);
    InsertStep(m, s, [], Fresh(map[], persistent), p);
    events := [] + [Insert(p)];
    var n := Fresh(map[Of(p) := p], persistent);
    InsertStep(m, s, events, n, q);
    events := events + [Insert(q)];
  }

  lemma NoEvents(m: Machine, s: System)
    ensures IsRun(m, s, []) && After(m, s, []) == s
  {
  }

  lemma InsertStep(m: Machine, s: System, events: seq<Event>, n: Node, p: Payload)
    requires IsRun(m, s, events) && After(m, s, events) == System(n, Idle)
    ensures IsRun(m, s, events + [Insert(p)])
    ensures After(m, s, events + [Insert(p)]) == System(n.(pending := n.pending[Of(p) := p]), Idle)
  {
    RunGrows(m, s, events, Insert(p));
  }

  /** What executing block 1 at genesis makes of a node. */
  function AfterFirst(n: Node, first: Payload): Node {
    n.(app := App(n.app.kv, 1, first.timeNanos, n.app.payloads[1 := first]), height := 1, last := Of(first),
       pending := n.pending - {Of(first)}, store := P.PutWith(n.store, first, true, P.Done).0)
  }

  lemma WalkStep(m: Machine, s: System, events: seq<Event>, n: Node, first: Payload)
    requires IsRun(m, s, events) && After(m, s, events) == System(n, Idle)
    requires n.last == Genesis && n.height == 0 && Of(first) in n.pending && n.pending[Of(first)] == first
    requires first.height == 1 && first.parent == Genesis
    ensures var d := Of(first);
            var more := events + [FinalizeStart(d)] + [WalkPoll(false)];
            && IsRun(m, s, more)
            && After(m, s, more) == System(n, Walking(d, Genesis, 0, Genesis, [first]))
  {
    hide IsRun, After, P.Get;
    var d := Of(first);
    RunGrows(m, s, events, FinalizeStart(d));
    RunGrows(m, s, events + [FinalizeStart(d)], WalkPoll(false));
    assert [first] + [] == [first];
  }

  lemma CommitFirst(m: Machine, n: Node, first: Payload)
    requires IsIdle(m) && n.app.height == 0 && n.app.timeNanos == 0
    ensures Commit(m, n.app, first, 1) == Some(App(n.app.kv, 1, first.timeNanos, n.app.payloads[1 := first]))
  {
  }

  lemma ExecuteStep(m: Machine, s: System, events: seq<Event>, n: Node, first: Payload)
    requires IsIdle(m) && IsRun(m, s, events)
    requires After(m, s, events) == System(n, Walking(Of(first), Genesis, 0, Genesis, [first]))
    requires n.last == Genesis && n.height == 0 && n.app.height == 0 && n.app.timeNanos == 0
    requires first.height == 1 && first.stateRoot == ZEROS
    ensures var more := events + [WalkPoll(false)] + [ExecuteNext(P.Done)];
            && IsRun(m, s, more) && After(m, s, more).node == AfterFirst(n, first)
  {
    hide IsRun, After, P.PutWith, P.Get, Commit;
    CommitFirst(m, n, first);
    RunGrows(m, s, events, WalkPoll(false));
    RunGrows(m, s, events + [WalkPoll(false)], ExecuteNext(P.Done));
  }

  function FirstBlockEvents(first: Payload): seq<Event> {
    [FinalizeStart(Of(first)), WalkPoll(false), WalkPoll(false), ExecuteNext(P.Done)]
  }

  /** From an idle node at genesis that holds block 1, four steps execute it. */
  lemma FirstBlockRuns(m: Machine, s: System, before: seq<Event>, n: Node, first: Payload) returns (events: seq<Event>)
    requires IsIdle(m) && IsRun(m, s, before) && After(m, s, before) == System(n, Idle)
    requires n.last == Genesis && n.height == 0 && n.app.height == 0 && n.app.timeNanos == 0
    requires Of(first) in n.pending && n.pending[Of(first)] == first
    requires first.height == 1 && first.parent == Genesis && first.stateRoot == ZEROS
    ensures events == before + FirstBlockEvents(first) && IsRun(m, s, events)
    ensures After(m, s, events).node == AfterFirst(n, first)
  {
    hide IsRun, After, AfterFirst, IsIdle;
    WalkStep(m, s, before, n, first);
    events := before + [FinalizeStart(Of(first))] + [WalkPoll(false)];
    ExecuteStep(m, s, events, n, first);
    events := events + [WalkPoll(false)] + [ExecuteNext(P.Done)];
  }

  // ----- a stale staging -----

  /** A stale staging does occur, and so does a hit on it: with `Genesis` read before
      block 1 was executed, a sibling of block 1 that claims height 2 is staged on the
      state after block 1, and the value cached then is answered to the next proposer
      that read `Genesis`. */
  lemma StaleStageHappens() returns (m: Machine, s: System, events: seq<Event>, parent: Digest)
    ensures && IsInitial(IDLE_APP, s) && IsRun(m, s, events) && |events| >= 2
            && var n, n' := NodeAt(m, s, events, |events| - 2), NodeAt(m, s, events, |events|);
               && n.last != Genesis && parent !in n.staged && parent in n'.staged
               && StageParent(m, n, parent, Genesis).Some? && StageParent(m, n', parent, Genesis).Some?
               && !StagedOk(m, IDLE_APP, parent, StageParent(m, n, parent, Genesis).value)
               && !StagedOk(m, IDLE_APP, parent, StageParent(m, n', parent, Genesis).value)
  {
    hide IsRun, After, StagedOk, Simulate, StageParent, AfterFirst, IsIdle;
    m := IdleMachine();
    var first, sibling := Child(1, 0), Child(2, 0);
    parent := Of(sibling);
    s := System(Fresh(map[], false), Idle);
    FreshIsInitial(false);
    events := TwoInserted(m, false, first, sibling);
    var n0 := Fresh(map[Of(first) := first, parent := sibling], false);
    events := FirstBlockRuns(m, s, events, n0, first);
    var n := AfterFirst(n0, first);
    var before := events;
    SiblingStages(m, n0, first, sibling);
    events := StageSteps(m, s, before, n, sibling);
    assert events[..|before|] == before && events[..|events|] == events;
    WrongHeight(m, sibling, StageParent(m, n, parent, Genesis).value);
  }

  lemma SiblingStages(m: Machine, n0: Node, first: Payload, sibling: Payload)
    requires IsIdle(m) && first == Child(1, 0) && sibling == Child(2, 0)
    requires n0 == Fresh(map[Of(first) := first, Of(sibling) := sibling], false)
    ensures var n := AfterFirst(n0, first);
            && n.last != Genesis && Ancestor(Genesis, n.last) && Of(sibling) !in n.staged && n.staged == map[]
            && Of(sibling) in n.pending && n.pending[Of(sibling)] == sibling
            && Simulate(m, n.app, sibling).Some?
            && StageParent(m, n, Of(sibling), Genesis) == Simulate(m, n.app, sibling)
  {
    hide P.PutWith, P.Get;
  }

  /** Simulate, then cache: the next staging of the same parent is a hit. */
  lemma StageSteps(m: Machine, s: System, before: seq<Event>, n: Node, pp: Payload) returns (events: seq<Event>)
    requires IsRun(m, s, before) && After(m, s, before).node == n
    requires pp.parent == Genesis && Ancestor(Genesis, n.last) && n.staged == map[]
    requires Of(pp) in n.pending && n.pending[Of(pp)] == pp && Simulate(m, n.app, pp).Some?
    ensures IsRun(m, s, events) && |events| == |before| + 2 && before <= events
    ensures var n' := After(m, s, events).node;
            && Of(pp) in n'.staged && StageParent(m, n', Of(pp), Genesis) == Simulate(m, n.app, pp)
  {
    hide IsRun, After, Simulate, P.Get;
    var parent, st := Of(pp), Simulate(m, n.app, pp).value;
    RunGrows(m, s, before, Simulating(parent, Genesis));
    events := before + [Simulating(parent, Genesis)];
    RunGrows(m, s, events, Caching(parent, st));
    events := events + [Caching(parent, st)];
  }

  /** A child of genesis that claims another height than 1 has no real post-state. */
  lemma WrongHeight(m: Machine, p: Payload, st: Staged)
    requires p.parent == Genesis && p.height != 1
    ensures !StagedOk(m, IDLE_APP, Of(p), st)
  {
  }

  // ----- a certified rival -----

  /** A rival of an executed block does get certified: its guard reads the tip at genesis
      and has nothing to object to, `finalize` then executes the other block of that
      height, and the put follows. */
  lemma RivalCertified() returns (m: Machine, s: System, events: seq<Event>, p: Payload, c: Call)
    ensures IsInitial(IDLE_APP, s) && s.node.store.persistent && IsRun(m, s, events) && WritesSucceed(events)
    ensures IsCertify(m, s, events, p, c) && Answer(m, s, events, p, c)
    ensures IsRival(NodeAt(m, s, events, c.decided), p)
  {
    hide IsRun, After, IsIdle, AfterFirst, WritesSucceed, Lookup;
    m := IdleMachine();
    p := Child(1, 1);
    var q := Child(1, 0);
    s := System(Fresh(map[], true), Idle);
    FreshIsInitial(true);
    var inserted := TwoInserted(m, true, p, q);
    var n0 := Fresh(map[Of(p) := p, Of(q) := q], true);
    var executed := FirstBlockRuns(m, s, inserted, n0, q);
    events := executed + [CertifyPut(p, P.Done)];
    RunGrows(m, s, executed, CertifyPut(p, P.Done));
    c := Call(|inserted|, Guard(|inserted|, []), |executed|);
    assert events[..|inserted|] == inserted && events[..|executed|] == executed;
    PutsSecond(n0, p, q);
    NoWriteFails(p, q);
  }

  lemma NoWriteFails(p: Payload, q: Payload)
    ensures WritesSucceed([Insert(p), Insert(q)] + FirstBlockEvents(q) + [CertifyPut(p, P.Done)])
  {
  }

  lemma PutsSecond(n0: Node, p: Payload, q: Payload)
    requires p == Child(1, 1) && q == Child(1, 0) && n0 == Fresh(map[Of(p) := p, Of(q) := q], true)
    ensures Lookup(n0, Of(p)) == Some(p) && n0.height == 0
    ensures var n := AfterFirst(n0, q); IsRival(n, p) && P.PutWith(n.store, p, false, P.Done).1
  {
  }
}
