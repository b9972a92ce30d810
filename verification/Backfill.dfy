/** Height-range backfill: which heights one tick asks peers for, in which messages,
    and how far apart two requests for one height are. Times are in milliseconds. */
module Backfill {
  import opened Common

  const BATCH_SIZE: nat := 64
  const MAX_SPAN: nat := 540_000
  const TICK_BUDGET: nat := 128
  const REASK_AFTER: nat := 2_000
  const SOLICITED_TTL: nat := 30_000

  /** `count` heights from `start` on. */
  datatype Range = Range(start: nat, count: nat)

  function Heights(r: Range): seq<nat> {
    seq(r.count, i requires i >= 0 => r.start + i)
  }

  function Flatten(rs: seq<Range>): seq<nat> {
    if rs == [] then [] else Flatten(rs[..|rs| - 1]) + Heights(rs[|rs| - 1])
  }

  lemma {:induction false} FlattenAppend(a: seq<Range>, b: seq<Range>)
    ensures Flatten(a + b) == Flatten(a) + Flatten(b)
    decreases |b|
  {
    if b == [] {
      assert a + b == a;
    } else {
      var n := |b| - 1;
      assert (a + b)[..|a + b| - 1] == a + b[..n];
      FlattenAppend(a, b[..n]);
    }
  }

  // ----- what is needed -----

  /** A mark younger than the re-ask interval means a request is in flight. */
  predicate InFlight(marks: map<nat, nat>, h: nat, now: nat) {
    h in marks && now < marks[h] + REASK_AFTER
  }

  predicate Needed(held: set<nat>, marks: map<nat, nat>, now: nat, h: nat) {
    h !in held && !InFlight(marks, h, now)
  }

  /** The needed heights of `[lo, hi)`, ascending. */
  function Missing(held: set<nat>, marks: map<nat, nat>, now: nat, lo: nat, hi: nat): seq<nat>
    decreases hi
  {
    if hi <= lo then []
    else Missing(held, marks, now, lo, hi - 1) + if Needed(held, marks, now, hi - 1) then [hi - 1] else []
  }

  /** `Missing` is the strictly ascending list of exactly the needed heights. */
  lemma {:induction false} MissingIsExact(held: set<nat>, marks: map<nat, nat>, now: nat, lo: nat, hi: nat)
    ensures var s := Missing(held, marks, now, lo, hi);
            && (forall h :: h in s <==> lo <= h < hi && Needed(held, marks, now, h))
            && (forall i, j :: 0 <= i < j < |s| ==> s[i] < s[j])
    decreases hi
  {
    if hi > lo {
      hide Needed;
      MissingIsExact(held, marks, now, lo, hi - 1);
      var before, all := Missing(held, marks, now, lo, hi - 1), Missing(held, marks, now, lo, hi);
      hide Missing;
      assert forall i :: 0 <= i < |before| ==> before[i] in before;
      assert forall h :: h in all <==> h in before || (h == hi - 1 && Needed(held, marks, now, h));
    }
  }

  function First(s: seq<nat>, n: nat): seq<nat> {
    if |s| <= n then s else s[..n]
  }

  /** `retain`: marks expire after the solicited window. */
  function Retained(marks: map<nat, nat>, now: nat): map<nat, nat> {
    map h | h in marks && now < marks[h] + SOLICITED_TTL :: marks[h]
  }

  function MarkAll(marks: map<nat, nat>, hs: seq<nat>, stamp: nat): map<nat, nat> {
    marks + map h | h in hs :: stamp
  }

  /** The heights one tick requests. */
  function Requests(tip: nat, maxSeen: nat, held: set<nat>, marks: map<nat, nat>, now: nat): seq<nat> {
    var target := Min(maxSeen, tip + MAX_SPAN);
    if target <= tip then []
    else First(Missing(held, Retained(marks, now), now, tip + 1, target + 1), TICK_BUDGET)
  }

  // ----- the loops -----

  function EndOf(r: Range): nat {
    r.start + r.count
  }

  /** Between two runs at least one height is not needed, so every run is maximal. */
  predicate Apart(runs: seq<Range>) {
    forall i :: 0 < i < |runs| ==> EndOf(runs[i - 1]) < runs[i].start
  }

  /** What the run-length loop holds when it comes to height `h`, with the heights
      `needed` behind it. */
  ghost predicate Collected(needed: seq<nat>, runs: seq<Range>, runStart: Option<nat>, h: nat) {
    && (runStart.Some? ==> runStart.value < h)
    && needed == Flatten(runs) + (if runStart.Some? then Heights(Range(runStart.value, h - runStart.value)) else [])
    && (forall r <- runs :: r.count > 0)
    && Apart(runs)
    && (runs != [] ==> EndOf(runs[|runs| - 1]) < if runStart.Some? then runStart.value else h)
  }

  lemma MissingStep(held: set<nat>, marks: map<nat, nat>, now: nat, lo: nat, h: nat)
    requires lo <= h
    ensures Missing(held, marks, now, lo, h + 1) ==
            Missing(held, marks, now, lo, h) + if Needed(held, marks, now, h) then [h] else []
  {
  }

  lemma RunOpens(needed: seq<nat>, runs: seq<Range>, h: nat)
    requires Collected(needed, runs, None, h)
    ensures Collected(needed + [h], runs, Some(h), h + 1)
  {
    assert Heights(Range(h, 1)) == [h];
  }

  lemma RunGrows(needed: seq<nat>, runs: seq<Range>, start: nat, h: nat)
    requires Collected(needed, runs, Some(start), h)
    ensures Collected(needed + [h], runs, Some(start), h + 1)
  {
    assert Heights(Range(start, h + 1 - start)) == Heights(Range(start, h - start)) + [h];
  }

  lemma RunLength(needed: seq<nat>, runs: seq<Range>, start: nat, h: nat)
    requires Collected(needed, runs, Some(start), h)
    ensures start < h
  {
  }

  lemma RunCloses(needed: seq<nat>, runs: seq<Range>, start: nat, h: nat)
    requires Collected(needed, runs, Some(start), h)
    ensures Collected(needed, runs + [Range(start, h - start)], None, h + 1)
  {
    assert (runs + [Range(start, h - start)])[..|runs|] == runs;
  }

  lemma NothingGrows(needed: seq<nat>, runs: seq<Range>, h: nat)
    requires Collected(needed, runs, None, h)
    ensures Collected(needed + [], runs, None, h + 1)
  {
    assert needed + [] == needed;
  }

  lemma CollectedRuns(needed: seq<nat>, runs: seq<Range>, h: nat)
    requires Collected(needed, runs, None, h)
    ensures Flatten(runs) == needed && (forall r <- runs :: r.count > 0) && Apart(runs)
  {
  }

  lemma NothingCollected(held: set<nat>, marks: map<nat, nat>, now: nat, lo: nat)
    ensures Collected(Missing(held, marks, now, lo, lo), [], None, lo)
  {
  }

  /** The run-length loop: group the needed heights of `(tip, target]` into maximal runs. */
  method CollectRuns(held: set<nat>, marks: map<nat, nat>, now: nat, tip: nat, target: nat) returns (runs: seq<Range>)
    requires tip < target
    ensures Flatten(runs) == Missing(held, marks, now, tip + 1, target + 1)
    ensures forall r <- runs :: r.count > 0
    ensures Apart(runs)
  {
    hide *;
    runs := [];
    var runStart: Option<nat> := None;
    NothingCollected(held, marks, now, tip + 1);
    for h := tip + 1 to target + 1
      invariant Collected(Missing(held, marks, now, tip + 1, h), runs, runStart, h)
    {
      ghost var needed := Missing(held, marks, now, tip + 1, h);
      MissingStep(held, marks, now, tip + 1, h);
      var need := Needed(held, marks, now, h);
      match (need, runStart) {
        case (true, None) =>
          RunOpens(needed, runs, h);
          runStart := Some(h);
        case (false, Some(start)) =>
          RunLength(needed, runs, start, h);
          RunCloses(needed, runs, start, h);
          assert needed + [] == needed;
          runs := runs + [Range(start, h - start)];
          runStart := None;
        case (true, Some(start)) =>
          RunGrows(needed, runs, start, h);
        case (false, None) =>
          NothingGrows(needed, runs, h);
      }
    }
    ghost var needed := Missing(held, marks, now, tip + 1, target + 1);
    if runStart.Some? {
      RunLength(needed, runs, runStart.value, target + 1);
      RunCloses(needed, runs, runStart.value, target + 1);
      runs := runs + [Range(runStart.value, target + 1 - runStart.value)];
      CollectedRuns(needed, runs, target + 2);
    } else {
      CollectedRuns(needed, runs, target + 1);
    }
  }

  /** `request_height_range`: split one range into messages of at most a batch. */
  method SplitRange(start: nat, count: nat) returns (sent: seq<Range>)
    ensures Flatten(sent) == Heights(Range(start, count))
    ensures forall r <- sent :: 0 < r.count <= BATCH_SIZE
  {
    sent := [];
    var sentStart, remaining := start, count;
    while remaining > 0
      invariant remaining >= 0 && sentStart >= start && sentStart + remaining == start + count
      invariant Flatten(sent) == Heights(Range(start, sentStart - start))
      invariant forall r <- sent :: 0 < r.count <= BATCH_SIZE
    {
      var n := if remaining <= BATCH_SIZE then remaining else BATCH_SIZE;
      assert Heights(Range(start, sentStart + n - start)) ==
             Heights(Range(start, sentStart - start)) + Heights(Range(sentStart, n));
      sent := sent + [Range(sentStart, n)];
      sentStart, remaining := sentStart + n, remaining - n;
    }
  }

  lemma FirstOfSum(a: seq<nat>, b: seq<nat>, n: nat)
    requires n <= |a|
    ensures First(a + b, n) == a[..n]
  {
  }

  lemma FirstExtends(a: seq<nat>, b: seq<nat>, n: nat)
    requires |a| <= n
    ensures First(a + b, n) == a + First(b, n - |a|)
  {
  }

  lemma FirstOfShort(a: seq<nat>, n: nat)
    requires |a| <= n
    ensures First(a, n) == a
  {
  }

  lemma FirstOfRun(r: Range, n: nat)
    ensures First(Heights(r), n) == Heights(Range(r.start, Min(r.count, n))) && |Heights(r)| == r.count
  {
  }

  /** What the budget loop has cut from the first runs, with `budget` heights left. */
  ghost predicate Spent(runs: seq<Range>, asked: seq<Range>, budget: nat) {
    && budget <= TICK_BUDGET && Flatten(asked) == First(Flatten(runs), TICK_BUDGET)
    && (if budget > 0 then |Flatten(runs)| == TICK_BUDGET - budget else |Flatten(runs)| >= TICK_BUDGET)
    && (forall r <- asked :: r.count > 0)
  }

  lemma NothingSpent()
    ensures Spent([], [], TICK_BUDGET)
  {
  }

  lemma SpendsMore(runs: seq<Range>, asked: seq<Range>, budget: nat, r: Range)
    requires Spent(runs, asked, budget) && budget > 0 && r.count > 0
    ensures var n := Min(r.count, budget); Spent(runs + [r], asked + [Range(r.start, n)], budget - n)
  {
    hide First, Heights;
    var n := Min(r.count, budget);
    assert (asked + [Range(r.start, n)])[..|asked|] == asked && (runs + [r])[..|runs|] == runs;
    FirstOfShort(Flatten(runs), TICK_BUDGET);
    FirstExtends(Flatten(runs), Heights(r), TICK_BUDGET);
    FirstOfRun(r, budget);
  }

  lemma AllSpent(runs: seq<Range>, more: seq<Range>, asked: seq<Range>)
    requires Spent(runs, asked, 0)
    ensures Flatten(asked) == First(Flatten(runs + more), TICK_BUDGET)
  {
    FlattenAppend(runs, more);
    hide Flatten;
    FirstOfSum(Flatten(runs), Flatten(more), TICK_BUDGET);
    FirstOfSum(Flatten(runs), [], TICK_BUDGET);
    assert Flatten(runs) + [] == Flatten(runs);
  }

  lemma SpentCounts(runs: seq<Range>, asked: seq<Range>, budget: nat)
    requires Spent(runs, asked, budget)
    ensures Flatten(asked) == First(Flatten(runs), TICK_BUDGET) && (forall r <- asked :: r.count > 0)
  {
  }

  /** The budget loop: cut the runs to the tick's budget, lowest heights first. */
  method SpendBudget(runs: seq<Range>) returns (asked: seq<Range>)
    requires forall r <- runs :: r.count > 0
    ensures Flatten(asked) == First(Flatten(runs), TICK_BUDGET)
    ensures forall r <- asked :: r.count > 0
  {
    hide Spent, First, Heights, Flatten;
    asked := [];
    var budget := TICK_BUDGET;
    NothingSpent();
    for i := 0 to |runs|
      invariant 0 <= budget && Spent(runs[..i], asked, budget)
    {
      if budget == 0 {
        SpentCounts(runs[..i], asked, 0);
        AllSpent(runs[..i], runs[i..], asked);
        assert runs == runs[..i] + runs[i..];
        return;
      }
      var r := runs[i];
      var n := Min(r.count, budget);
      SpendsMore(runs[..i], asked, budget, r);
      assert runs[..i + 1] == runs[..i] + [r];
      asked := asked + [Range(r.start, n)];
      budget := budget - n;
    }
    assert runs[..|runs|] == runs;
    SpentCounts(runs, asked, budget);
  }

  /** Exactness: a tick asks, in ascending order and each once, for the lowest needed
      heights above the tip, and for all of them when at most the budget are needed. */
  lemma RequestsAreExact(tip: nat, maxSeen: nat, held: set<nat>, marks: map<nat, nat>, now: nat)
    ensures var asked := Requests(tip, maxSeen, held, marks, now);
            var target := Min(maxSeen, tip + MAX_SPAN);
            var kept := Retained(marks, now);
            && |asked| <= TICK_BUDGET
            && (forall i, j :: 0 <= i < j < |asked| ==> asked[i] < asked[j])
            && (forall h <- asked :: tip < h <= target && Needed(held, kept, now, h))
            && (forall h :: tip < h <= target && Needed(held, kept, now, h) && h !in asked ==>
                  |asked| == TICK_BUDGET && forall a <- asked :: a < h)
  {
    var target := Min(maxSeen, tip + MAX_SPAN);
    if target > tip {
      var kept := Retained(marks, now);
      MissingIsExact(held, kept, now, tip + 1, target + 1);
      FirstOfAscending(Missing(held, kept, now, tip + 1, target + 1), TICK_BUDGET);
    }
  }

  /** A prefix of an ascending list leaves out only larger elements, and only when full. */
  lemma FirstOfAscending(all: seq<nat>, n: nat)
    requires forall i, j :: 0 <= i < j < |all| ==> all[i] < all[j]
    ensures var s := First(all, n);
            && |s| <= n
            && (forall i, j :: 0 <= i < j < |s| ==> s[i] < s[j])
            && (forall h <- s :: h in all)
            && (forall h <- all :: h !in s ==> |s| == n && forall a <- s :: a < h)
  {
    var s := First(all, n);
    forall h <- all | h !in s
      ensures |s| == n && forall a <- s :: a < h
    {
      var k :| 0 <= k < |all| && all[k] == h;
      assert forall i :: 0 <= i < |s| ==> all[i] == s[i] && s[i] in s;
    }
  }

  /** Dropping expired marks does not make a height needed that was in flight. */
  lemma RetainedKeepsInFlight(marks: map<nat, nat>, h: nat, now: nat)
    ensures InFlight(Retained(marks, now), h, now) <==> InFlight(marks, h, now)
  {
  }

  // ----- pacing over runs -----

  /** What happens to the marks: a tick checks them, a request sets those of a range, or a
      payload of height `h` is processed. */
  datatype Event =
    | Checked(now: nat)
    | Marked(range: Range, stamp: nat)
    | Processed(h: nat)

  function Apply(marks: map<nat, nat>, e: Event): map<nat, nat> {
    match e
    case Checked(now) => Retained(marks, now)
    case Marked(range, stamp) => MarkAll(marks, Heights(range), stamp)
    case Processed(h) => marks - {h}
  }

  function Run(marks: map<nat, nat>, events: seq<Event>): map<nat, nat> {
    if events == [] then marks else Apply(Run(marks, events[..|events| - 1]), events[|events| - 1])
  }

  /** The clock when an event reads it. */
  function TimeOf(e: Event): Option<nat> {
    match e
    case Checked(now) => Some(now)
    case Marked(_, stamp) => Some(stamp)
    case Processed(_) => None
  }

  ghost predicate ClockAdvances(events: seq<Event>) {
    forall i, j :: 0 <= i < j < |events| && TimeOf(events[i]).Some? && TimeOf(events[j]).Some? ==>
      TimeOf(events[i]).value <= TimeOf(events[j]).value
  }

  /** A check that finds `h` with no request in flight. */
  predicate FindsNone(marks: map<nat, nat>, e: Event, h: nat) {
    e.Checked? && !InFlight(Retained(marks, e.now), h, e.now)
  }

  /** After a request for `h` stamped `t`: either a mark at least as young remains, or
      two seconds have passed on the clock. */
  ghost predicate Paced(marks: map<nat, nat>, h: nat, t: nat, clock: nat) {
    (h in marks && marks[h] >= t) || clock >= t + REASK_AFTER
  }

  /** A request leaves a mark with its stamp. */
  lemma RequestMarks(marks: map<nat, nat>, range: Range, stamp: nat, h: nat)
    requires h in Heights(range)
    ensures Paced(Apply(marks, Marked(range, stamp)), h, stamp, stamp)
  {
  }

  lemma ApplyKeepsPaced(marks: map<nat, nat>, e: Event, h: nat, t: nat, clock: nat)
    requires e != Processed(h) && t <= clock && Paced(marks, h, t, clock)
    requires TimeOf(e).Some? ==> clock <= TimeOf(e).value
    ensures Paced(Apply(marks, e), h, t, if TimeOf(e).Some? then TimeOf(e).value else clock)
  {
  }

  lemma PacedDelays(marks: map<nat, nat>, e: Event, h: nat, t: nat, clock: nat)
    requires FindsNone(marks, e, h) && Paced(marks, h, t, clock) && t <= clock <= e.now
    ensures e.now >= t + REASK_AFTER
  {
    RetainedKeepsInFlight(marks, h, e.now);
  }

  /** A check forgets exactly the marks that are 30 seconds old. */
  lemma CheckExpires(marks: map<nat, nat>, now: nat, h: nat)
    ensures var kept := Apply(marks, Checked(now));
            && (h in kept <==> h in marks && now - marks[h] < 30_000)
            && (h in kept ==> kept[h] == marks[h])
  {
  }

  lemma RunStep(marks: map<nat, nat>, events: seq<Event>, k: nat)
    requires k < |events|
    ensures Run(marks, events[..k + 1]) == Apply(Run(marks, events[..k]), events[k])
  {
    assert events[..k + 1][..k] == events[..k];
  }

  /** Pacing: in any run, from the stamp of a request for a height to the next check that
      finds none in flight, two seconds pass, unless a payload of that height was
      processed in between. */
  lemma RequestsArePaced(marks: map<nat, nat>, events: seq<Event>, h: nat, i: nat, j: nat)
    requires ClockAdvances(events) && i < j < |events|
    requires events[i].Marked? && h in Heights(events[i].range) && FindsNone(Run(marks, events[..j]), events[j], h)
    requires forall k :: i < k < j ==> events[k] != Processed(h)
    ensures events[j].now >= events[i].stamp + REASK_AFTER
  {
    hide Apply, Run, Paced, Heights, FindsNone;
    var t := events[i].stamp;
    var clock, k := t, i + 1;
    RunStep(marks, events, i);
    RequestMarks(Run(marks, events[..i]), events[i].range, t, h);
    while k < j
      invariant i < k <= j && t <= clock
      invariant Paced(Run(marks, events[..k]), h, t, clock)
      invariant forall l :: k <= l < |events| && TimeOf(events[l]).Some? ==> clock <= TimeOf(events[l]).value
    {
      RunStep(marks, events, k);
      ApplyKeepsPaced(Run(marks, events[..k]), events[k], h, t, clock);
      clock := if TimeOf(events[k]).Some? then TimeOf(events[k]).value else clock;
      k := k + 1;
    }
    FindsIsCheck(Run(marks, events[..j]), events[j], h);
    PacedDelays(Run(marks, events[..j]), events[j], h, t, clock);
  }

  lemma FindsIsCheck(marks: map<nat, nat>, e: Event, h: nat)
    requires FindsNone(marks, e, h)
    ensures e.Checked? && TimeOf(e) == Some(e.now)
  {
  }

  /** A height a tick asks for has no request in flight at its check. */
  lemma AskFindsNone(tip: nat, maxSeen: nat, held: set<nat>, marks: map<nat, nat>, now: nat, h: nat)
    requires h in Requests(tip, maxSeen, held, marks, now)
    ensures FindsNone(marks, Checked(now), h)
  {
    RequestsAreExact(tip, maxSeen, held, marks, now);
  }
}
