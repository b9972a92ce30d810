/** What bounds the node's buffers: admission of peer payloads, request marks and staged
    roots, and the pacing of backfill requests over node runs. */
module NodeBuffers {
  import opened Common
  import opened Chain
  import opened Node
  import opened NodeSafety
  import opened NodeTheorems
  import P = PayloadStore
  import Backfill

  // ----- admission -----

  /** One admission: the buffer never grows past its total bound or its old size, an
      unsolicited insert keeps the reserve free, only new unsolicited payloads are
      relayed, and at most one entry, of maximal height, makes room. */
  lemma AdmissionBounds(n: Node, p: Payload, solicited: bool, near: bool, victim: Digest)
    requires MustEvict(n, p, solicited) ==> IsVictim(n, victim)
    ensures var n', r := Buffered(n, p, solicited, near, victim), Decide(n, p, solicited, near);
            && |n'.pending| <= Max(|n.pending|, MAX_PENDING)
            && (r.Inserted? <==>
                Of(p) !in n.pending && (solicited || (near && |n.pending| < MAX_PENDING - SOLICITED_RESERVE)))
            && (r.Inserted? <==> Of(p) in n'.pending && Of(p) !in n.pending)
            && (r.Inserted? ==> r.relay == !solicited) && (!r.Inserted? ==> n' == n)
            && (r.Inserted? ==> n'.pending[Of(p)] == p && (solicited || near))
            && (r == Inserted(true) ==> !solicited && |n'.pending| <= MAX_PENDING - SOLICITED_RESERVE)
            && (forall d <- n'.pending :: d == Of(p) || (d in n.pending && n'.pending[d] == n.pending[d]))
            && (forall d <- n.pending :: d !in n'.pending ==> d == victim && MustEvict(n, p, solicited))
  {
    if MustEvict(n, p, solicited) {
      assert |n.pending - {victim}| == |n.pending| - 1 by {
        assert (n.pending - {victim}).Keys == n.pending.Keys - {victim};
      }
    }
  }

  /** One arrival of a peer payload that came as far as the buffer: when it read the tip
      and the height hint, and the events by which it was observed, looked for a request
      mark of its digest and then of its height, and was offered to the buffer. */
  datatype Arrival = Arrival(tipAt: nat, seenAt: nat, observed: nat, digest: nat, height: nat, offered: nat)

  ghost predicate InOrder(events: seq<Event>, p: Payload, c: Arrival) {
    && c.tipAt <= c.seenAt <= c.observed < c.digest <= c.height < c.offered < |events|
    && events[c.observed] == Observe(p.height) && events[c.digest] == TakeDigest(Of(p))
    && (c.digest < c.height ==> events[c.height] == TakeHeight(p.height))
  }

  /** Its digest was asked for, or else its height. */
  ghost predicate Solicited(m: Machine, s: System, events: seq<Event>, p: Payload, c: Arrival)
    requires IsRun(m, s, events) && InOrder(events, p, c)
  {
    || Of(p) in NodeAt(m, s, events, c.digest).requested
    || (c.digest < c.height && p.height in NodeAt(m, s, events, c.height).requestedHeights)
  }

  /** Its height was no higher than one seen before it, or near the tip that was read. */
  ghost predicate Near(m: Machine, s: System, events: seq<Event>, p: Payload, c: Arrival)
    requires IsRun(m, s, events) && InOrder(events, p, c)
  {
    || p.height <= NodeAt(m, s, events, c.seenAt).maxSeen
    || p.height <= NodeAt(m, s, events, c.tipAt).height + LOOKAHEAD
  }

  /** The mark of the height is looked for only without one of the digest. */
  ghost predicate IsArrival(m: Machine, s: System, events: seq<Event>, p: Payload, c: Arrival)
    requires IsRun(m, s, events)
  {
    && InOrder(events, p, c) && WithinLimits(p) && p.height > NodeAt(m, s, events, c.tipAt).height
    && (c.digest < c.height <==> Of(p) !in NodeAt(m, s, events, c.digest).requested)
    && var e := events[c.offered];
       && e.Admit? && e.p == p
       && e.solicited == Solicited(m, s, events, p, c) && e.near == Near(m, s, events, p, c)
  }

  /** What `accept_peer_relay` answers. */
  ghost function Reception(m: Machine, s: System, events: seq<Event>, p: Payload, c: Arrival): Admission
    requires IsRun(m, s, events) && IsArrival(m, s, events, p, c)
  {
    Decide(NodeAt(m, s, events, c.offered), p, Solicited(m, s, events, p, c), Near(m, s, events, p, c))
  }

  /** A payload that was asked for is held afterwards, whatever the buffer holds. */
  lemma SolicitedIsAdmitted(m: Machine, s: System, events: seq<Event>, p: Payload, c: Arrival)
    requires IsRun(m, s, events) && IsArrival(m, s, events, p, c) && Solicited(m, s, events, p, c)
    ensures Reception(m, s, events, p, c) in {AlreadyKnown, Inserted(false)}
    ensures Of(p) in NodeAt(m, s, events, c.offered + 1).pending
  {
    hide IsRun, NodeAt, Enabled, Step, Buffered, WithinLimits;
    var t := StateAt(m, s, events, c.offered);
    ReceptionEffect(m, t, events[c.offered]);
    SolicitedIsHeld(t.node, p, events[c.offered].near, events[c.offered].victim);
  }

  lemma SolicitedIsHeld(n: Node, p: Payload, near: bool, victim: Digest)
    ensures Of(p) in Buffered(n, p, true, near, victim).pending
  {
  }

  /** What the steps of an arrival change. */
  lemma ReceptionEffect(m: Machine, s: System, e: Event)
    requires Enabled(s, e)
    ensures var n, n' := s.node, Step(m, s, e).node;
            match e
            case Observe(h) => n'.maxSeen == Max(n.maxSeen, h)
            case TakeDigest(d) => n'.requested == n.requested - {d}
            case TakeHeight(h) => n'.requestedHeights == n.requestedHeights - {h}
            case Admit(p, solicited, near, victim) => n' == Buffered(n, p, solicited, near, victim)
            case _ => true
  {
    hide Buffered, Simulate, CacheStaged, PollWalk, ExecuteBlock, CleanUp, Restarted, P.PutWith, RequestPayload,
         Enabled,
         Backfill.Retained, Backfill.MarkAll, Results, Max;
  }

  /** The system before event `k`, and what that event makes of it. */
  lemma StateAt(m: Machine, s: System, events: seq<Event>, k: nat) returns (t: System)
    requires IsRun(m, s, events) && k < |events|
    ensures t.node == NodeAt(m, s, events, k) && Enabled(t, events[k])
    ensures Step(m, t, events[k]).node == NodeAt(m, s, events, k + 1)
  {
    hide Step, Enabled;
    StepAt(m, s, events, k + 1);
    t := After(m, s, events[..k]);
  }

  /** An arrival raises the height hint and uses up one mark of its own: its digest's, or
      else its height's. */
  lemma ArrivalUsesMark(m: Machine, s: System, events: seq<Event>, p: Payload, c: Arrival)
    requires IsRun(m, s, events) && IsArrival(m, s, events, p, c)
    ensures NodeAt(m, s, events, c.observed + 1).maxSeen >= p.height
    ensures Of(p) !in NodeAt(m, s, events, c.digest + 1).requested
    ensures c.digest < c.height ==> p.height !in NodeAt(m, s, events, c.height + 1).requestedHeights
  {
    hide IsRun, NodeAt, Enabled, Step, Buffered, WithinLimits;
    var t := StateAt(m, s, events, c.observed);
    ReceptionEffect(m, t, events[c.observed]);
    t := StateAt(m, s, events, c.digest);
    ReceptionEffect(m, t, events[c.digest]);
    if c.digest < c.height {
      t := StateAt(m, s, events, c.height);
      ReceptionEffect(m, t, events[c.height]);
    }
  }

  // ----- every reply has a request of its own -----

  /** `e` asks peers for digest `d`. */
  predicate AsksFor(s: System, e: Event, d: Digest) {
    e == Request(d) || (e == WalkPoll(true) && s.task.Walking? && s.task.cursor == d)
  }

  lemma OnlyRequestsAsk(m: Machine, s: System, e: Event, d: Digest)
    requires Enabled(s, e) && d !in s.node.requested && d in Step(m, s, e).node.requested
    ensures AsksFor(s, e, d)
  {
    hide P.PutWith, P.Get, P.PruneBelow, P.Opened, P.PayloadsAbove, P.IsListing, Simulate, CacheStaged, Commit,
         Backfill.Retained, Backfill.MarkAll, Buffered;
    if e.Admit? {
      BufferedFrame(s.node, e.p, e.solicited, e.near, e.victim);
    }
  }

  lemma {:induction false} AskedBetween(m: Machine, s: System, events: seq<Event>, i: nat, j: nat, d: Digest)
      returns (k: nat)
    requires IsRun(m, s, events) && i <= j <= |events|
    requires d !in NodeAt(m, s, events, i).requested && d in NodeAt(m, s, events, j).requested
    ensures i <= k < j && IsRun(m, s, events[..k]) && AsksFor(After(m, s, events[..k]), events[k], d)
    decreases j
  {
    hide IsRun, Step, Enabled, AsksFor;
    PrefixRuns(m, s, events, j - 1);
    if d in NodeAt(m, s, events, j - 1).requested {
      k := AskedBetween(m, s, events, i, j - 1, d);
    } else {
      k := j - 1;
      StepAt(m, s, events, j);
      OnlyRequestsAsk(m, After(m, s, events[..k]), events[k], d);
    }
  }

  /** Two arrivals of one payload that both found its digest asked for had a request each:
      between them it was asked for again. */
  lemma EachReplyHasItsRequest(m: Machine, s: System, events: seq<Event>, p: Payload, c: Arrival, c': Arrival)
      returns (k: nat)
    requires IsRun(m, s, events) && IsArrival(m, s, events, p, c) && IsArrival(m, s, events, p, c')
    requires c.digest < c'.digest && Of(p) in NodeAt(m, s, events, c'.digest).requested
    ensures c.digest < k < c'.digest && IsRun(m, s, events[..k]) && AsksFor(After(m, s, events[..k]), events[k], Of(p))
  {
    hide IsRun, AsksFor, After, NodeAt;
    ArrivalUsesMark(m, s, events, p, c);
    k := AskedBetween(m, s, events, c.digest + 1, c'.digest, Of(p));
  }

  // ----- bounded memory -----

  function Inserts(events: seq<Event>): nat {
    if events == [] then 0
    else Inserts(events[..|events| - 1]) + if events[|events| - 1].Insert? then 1 else 0
  }

  lemma {:induction false} SetShrinks(a: set<Digest>, b: set<Digest>)
    requires b <= a
    ensures |b| <= |a|
    decreases |b|
  {
    if d :| d in b {
      SetShrinks(a - {d}, b - {d});
    }
  }

  /** All other steps only take payloads out of the buffer. */
  lemma OthersShrinkPending(m: Machine, s: System, e: Event)
    requires Enabled(s, e) && !e.Restart? && !e.Admit? && !e.Insert?
    ensures Step(m, s, e).node.pending.Keys <= s.node.pending.Keys
  {
    hide P.PutWith, P.Get, P.PruneBelow, Simulate, CacheStaged, Commit, Backfill.Retained, Backfill.MarkAll, Lookup,
         Results;
  }

  lemma InsertGrows(pending: map<Digest, Payload>, p: Payload)
    ensures |pending[Of(p) := p]| <= |pending| + 1
  {
    assert pending[Of(p) := p].Keys == pending.Keys + {Of(p)};
  }

  lemma InsertEffect(m: Machine, s: System, p: Payload)
    ensures Step(m, s, Insert(p)).node.pending == s.node.pending[Of(p) := p]
  {
  }

  /** One step adds to the buffer what an admission may, or one payload of the node's own. */
  lemma StepKeepsPending(m: Machine, s: System, e: Event)
    requires Enabled(s, e) && !e.Restart?
    ensures |Step(m, s, e).node.pending| <= Max(|s.node.pending|, MAX_PENDING) + if e.Insert? then 1 else 0
  {
    MaxIsAbove(|s.node.pending|, MAX_PENDING);
    assert e.Admit? ==> MustEvict(s.node, e.p, e.solicited) ==> IsVictim(s.node, e.victim);
    hide Step, Buffered, Max, WithinLimits, MustEvict, IsVictim, Enabled;
    if e.Admit? {
      ReceptionEffect(m, s, e);
      AdmissionBounds(s.node, e.p, e.solicited, e.near, e.victim);
    } else if e.Insert? {
      InsertEffect(m, s, e.p);
      InsertGrows(s.node.pending, e.p);
    } else {
      OthersShrinkPending(m, s, e);
      SetShrinks(s.node.pending.Keys, Step(m, s, e).node.pending.Keys);
    }
  }

  lemma MaxIsAbove(a: int, b: int)
    ensures a <= Max(a, b) && b <= Max(a, b)
  {
  }

  /** Between restarts the buffer of pending payloads stays within the larger of its size
      before and its total bound, not counting the node's own. */
  lemma {:induction false} AdmissionsStayBounded(m: Machine, s: System, events: seq<Event>)
    requires IsRun(m, s, events) && forall e <- events :: !e.Restart?
    ensures |After(m, s, events).node.pending| <= Max(|s.node.pending|, MAX_PENDING) + Inserts(events)
    decreases |events|
  {
    if events != [] {
      hide Step, Enabled;
      var k := |events| - 1;
      assert events[k] in events;
      AdmissionsStayBounded(m, s, events[..k]);
      StepKeepsPending(m, After(m, s, events[..k]), events[k]);
    }
  }

  ghost predicate Bounded(n: Node) {
    |n.requested| <= MAX_REQUESTED && |n.staged| <= STAGED_CAPACITY
  }

  lemma RequestKeepsBounded(n: Node, d: Digest)
    requires Bounded(n)
    ensures Bounded(RequestPayload(n, d))
  {
  }

  lemma CachingKeepsBounded(n: Node, d: Digest, st: Staged)
    requires Bounded(n)
    ensures Bounded(n.(staged := CacheStaged(n.staged, d, st)))
  {
  }

  /** The finalize steps and a restart leave both alone, or empty. */
  lemma FinalizeKeepsBounded(m: Machine, s: System, e: Event)
    requires Enabled(s, e) && Bounded(s.node)
    requires e.FinalizeStart? || e.WalkPoll? || e.WalkGiveUp? || e.ExecuteNext? || e.FinalizeEnd? || e.Restart?
    ensures Bounded(Step(m, s, e).node)
  {
    hide P.Get, P.PutWith, P.PruneBelow, P.Opened, P.PayloadsAbove, Commit, RequestPayload, Bounded, P.IsListing;
    BoundedReads(s.node, Step(m, s, e).node);
    if e.WalkPoll? {
      RequestKeepsBounded(s.node, s.task.cursor);
    }
  }

  lemma BoundedReads(n: Node, n': Node)
    ensures n'.requested <= n.requested && n'.staged == n.staged && Bounded(n) ==> Bounded(n')
    ensures n'.requested == {} && n'.staged == map[] ==> Bounded(n')
  {
    if n'.requested <= n.requested {
      SetShrinks(n.requested, n'.requested);
    }
  }

  lemma StepKeepsBounded(m: Machine, s: System, e: Event)
    requires Enabled(s, e) && Bounded(s.node)
    ensures Bounded(Step(m, s, e).node)
  {
    hide P.Get, P.PutWith, Simulate, Buffered, CacheStaged, RequestPayload, Bounded, PollWalk, ExecuteBlock, CleanUp,
      Restarted, Backfill.Retained, Backfill.MarkAll, WithinLimits, MustEvict, IsVictim;
    BoundedReads(s.node, Step(m, s, e).node);
    match e
    case Admit(p, solicited, near, victim) => BufferedFrame(s.node, p, solicited, near, victim);
    case Request(d) => RequestKeepsBounded(s.node, d);
    case Caching(d, st) => CachingKeepsBounded(s.node, d, st);
    case Observe(_) =>
    case TakeDigest(_) =>
    case TakeHeight(_) =>
    case Insert(_) =>
    case Simulating(_, _) =>
    case CertifyPut(_, _) =>
    case Forget(_) =>
    case CheckMarks(_) =>
    case Mark(_, _) =>
    case _ => FinalizeKeepsBounded(m, s, e);
  }

  /** In every run the digest requests and the staged roots stay within their caps. */
  lemma {:induction false} RunKeepsBounded(m: Machine, s: System, events: seq<Event>)
    requires IsRun(m, s, events) && Bounded(s.node)
    ensures Bounded(After(m, s, events).node)
    decreases |events|
  {
    if events != [] {
      hide Step, Enabled, Bounded;
      RunKeepsBounded(m, s, events[..|events| - 1]);
      StepKeepsBounded(m, After(m, s, events[..|events| - 1]), events[|events| - 1]);
    }
  }

  // ----- backfill marks -----

  /** What an event is to the marks. */
  function MarkEvent(e: Event): Option<Backfill.Event> {
    match e
    case CheckMarks(now) => Some(Backfill.Checked(now))
    case Mark(range, stamp) => Some(Backfill.Marked(range, stamp))
    case TakeHeight(h) => Some(Backfill.Processed(h))
    case _ => None
  }

  /** Between restarts, the node's request marks change only as the backfill model says. */
  lemma MarksFollowBackfill(m: Machine, s: System, e: Event)
    requires Enabled(s, e) && !e.Restart?
    ensures var marks, marks' := s.node.requestedHeights, Step(m, s, e).node.requestedHeights;
            marks' == if MarkEvent(e).Some? then Backfill.Apply(marks, MarkEvent(e).value) else marks
  {
    hide P.PutWith, P.Get, P.PruneBelow, Buffered, Simulate, CacheStaged, Commit, Backfill.Retained, Backfill.MarkAll;
    if e.Admit? {
      BufferedFrame(s.node, e.p, e.solicited, e.near, e.victim);
    }
  }

  /** One height half of `backfill_tick` that had something to look for: when it read the
      tip, the height hint and the held heights, the event of its check, and those by
      which it marked what it asked for. */
  datatype Ticking = Ticking(tipAt: nat, seenAt: nat, heldAt: nat, checked: nat, marked: seq<nat>)

  ghost predicate Ticks(events: seq<Event>, now: nat, c: Ticking) {
    && c.tipAt <= c.seenAt <= c.heldAt <= c.checked < |events| && events[c.checked] == CheckMarks(now)
    && (forall k :: 0 <= k < |c.marked| ==> c.checked < c.marked[k] < |events| && events[c.marked[k]].Mark?)
  }

  /** The ranges it marked, in order. */
  ghost function RangesOf(events: seq<Event>, at: seq<nat>): seq<Backfill.Range>
    requires forall k :: 0 <= k < |at| ==> at[k] < |events| && events[at[k]].Mark?
  {
    seq(|at|, k requires 0 <= k < |at| => events[at[k]].range)
  }

  /** What the tick is to ask for, from what it read. */
  ghost function Wanted(m: Machine, s: System, events: seq<Event>, now: nat, c: Ticking): seq<nat>
    requires IsRun(m, s, events) && Ticks(events, now, c)
  {
    Backfill.Requests(NodeAt(m, s, events, c.tipAt).height, NodeAt(m, s, events, c.seenAt).maxSeen,
                      HeldHeights(NodeAt(m, s, events, c.heldAt)),
                      NodeAt(m, s, events, c.checked).requestedHeights, now)
  }

  /** A whole tick: it marks exactly what it is to ask for. */
  ghost predicate IsTick(m: Machine, s: System, events: seq<Event>, now: nat, c: Ticking)
    requires IsRun(m, s, events)
  {
    Ticks(events, now, c) && Backfill.Flatten(RangesOf(events, c.marked)) == Wanted(m, s, events, now, c)
  }

  /** The clock when an event reads it. */
  function TimeOf(e: Event): Option<nat> {
    if MarkEvent(e).Some? then Backfill.TimeOf(MarkEvent(e).value) else None
  }

  ghost predicate ClockAdvances(events: seq<Event>) {
    forall i, j :: 0 <= i < j < |events| && TimeOf(events[i]).Some? && TimeOf(events[j]).Some? ==>
      TimeOf(events[i]).value <= TimeOf(events[j]).value
  }

  lemma StepKeepsPaced(m: Machine, s: System, e: Event, h: nat, t: nat, clock: nat)
    requires Enabled(s, e) && !e.Restart? && e != TakeHeight(h) && t <= clock
    requires TimeOf(e).Some? ==> clock <= TimeOf(e).value
    requires Backfill.Paced(s.node.requestedHeights, h, t, clock)
    ensures Backfill.Paced(Step(m, s, e).node.requestedHeights, h, t,
                           if TimeOf(e).Some? then TimeOf(e).value else clock)
  {
    hide Step, Enabled, Backfill.Apply, Backfill.Paced;
    MarksFollowBackfill(m, s, e);
    if MarkEvent(e).Some? {
      Backfill.ApplyKeepsPaced(s.node.requestedHeights, MarkEvent(e).value, h, t, clock);
    }
  }

  /** Pacing over node runs: between restarts, from the stamp of a request for a height to
      the check of a tick that asks for it again at least two seconds pass, unless a
      payload of that height was processed in between. */
  lemma NodeRequestsArePaced(m: Machine, s: System, events: seq<Event>, h: nat, i: nat, now: nat, c: Ticking)
    requires IsRun(m, s, events) && ClockAdvances(events) && IsTick(m, s, events, now, c) && i < c.checked
    requires events[i].Mark? && h in Backfill.Heights(events[i].range) && h in Wanted(m, s, events, now, c)
    requires forall k :: i <= k < c.checked ==> !events[k].Restart?
    requires forall k :: i < k < c.checked ==> events[k] != TakeHeight(h)
    ensures now >= events[i].stamp + Backfill.REASK_AFTER
  {
    hide IsRun, Step, Enabled, Backfill.Requests, Backfill.Paced, HeldHeights, After, Backfill.Heights, NodeAt,
         Backfill.Flatten, RangesOf, Backfill.FindsNone;
    var t := events[i].stamp;
    MarkIsPaced(m, s, events, h, i);
    var clock, k := t, i + 1;
    while k < c.checked
      invariant i < k <= c.checked && t <= clock
      invariant Backfill.Paced(NodeAt(m, s, events, k).requestedHeights, h, t, clock)
      invariant forall l :: k <= l < |events| && TimeOf(events[l]).Some? ==> clock <= TimeOf(events[l]).value
    {
      var before := StateAt(m, s, events, k);
      StepKeepsPaced(m, before, events[k], h, t, clock);
      clock := if TimeOf(events[k]).Some? then TimeOf(events[k]).value else clock;
      k := k + 1;
    }
    assert TimeOf(events[c.checked]) == Some(now);
    var marks := NodeAt(m, s, events, c.checked).requestedHeights;
    Backfill.AskFindsNone(NodeAt(m, s, events, c.tipAt).height, NodeAt(m, s, events, c.seenAt).maxSeen,
                          HeldHeights(NodeAt(m, s, events, c.heldAt)), marks, now, h);
    Backfill.PacedDelays(marks, Backfill.Checked(now), h, t, clock);
  }

  lemma MarkIsPaced(m: Machine, s: System, events: seq<Event>, h: nat, i: nat)
    requires IsRun(m, s, events) && i < |events| && events[i].Mark? && h in Backfill.Heights(events[i].range)
    ensures Backfill.Paced(NodeAt(m, s, events, i + 1).requestedHeights, h, events[i].stamp, events[i].stamp)
  {
    hide IsRun, Step, Enabled, NodeAt, Backfill.Paced, Backfill.Apply, Backfill.Heights;
    var t := StateAt(m, s, events, i);
    MarksFollowBackfill(m, t, events[i]);
    Backfill.RequestMarks(t.node.requestedHeights, events[i].range, events[i].stamp, h);
  }
}
