/** Which pending transactions a proposal carries, and in what order: per-sender queues
    merged by the arrival of their heads, cut by a count and a byte budget. */
module Batch {
  import opened Common
  import Hex

  datatype TxMeta = TxMeta(sender: Bytes, sequence: nat, storeCode: bool)

  /** One pending transaction, with the metadata it was admitted with. */
  datatype Pending = Pending(arrival: nat, hash: Bytes, tx: Bytes, meta: Option<TxMeta>)

  /** The queue a transaction waits in: its sender's, or one named by its hash. */
  function Key(p: Pending): Bytes {
    if p.meta.Some? then p.meta.value.sender else Hex.Encode(p.hash)
  }

  function Rank(p: Pending): nat {
    if p.meta.Some? then p.meta.value.sequence else U64_MAX
  }

  /** The order inside a queue: by sequence, then by arrival. */
  predicate Before(x: Pending, y: Pending) {
    Rank(x) < Rank(y) || (Rank(x) == Rank(y) && x.arrival < y.arrival)
  }

  ghost predicate Distinct(pool: set<Pending>) {
    forall x, y :: x in pool && y in pool && x.arrival == y.arrival ==> x == y
  }

  // ----- the order of emission -----

  ghost predicate IsHead(pool: set<Pending>, x: Pending) {
    x in pool && (forall y :: y in pool && Key(y) == Key(x) ==> y == x || Before(x, y))
  }

  /** The transaction emitted first: of the queue heads, the earliest to arrive. */
  ghost predicate IsNext(pool: set<Pending>, x: Pending) {
    IsHead(pool, x) && (forall y :: IsHead(pool, y) ==> x.arrival <= y.arrival)
  }

  lemma {:induction false} HeadExists(pool: set<Pending>, x: Pending) returns (h: Pending)
    requires Distinct(pool) && x in pool
    ensures IsHead(pool, h) && Key(h) == Key(x) && (h == x || Before(h, x))
    decreases |pool|
  {
    var rest := pool - {x};
    if y :| y in rest && Key(y) == Key(x) && Before(y, x) {
      h := HeadExists(rest, y);
    } else {
      h := x;
    }
  }

  lemma {:induction false} EarliestExists(pool: set<Pending>) returns (m: Pending)
    requires pool != {}
    ensures m in pool && (forall p <- pool :: m.arrival <= p.arrival)
    decreases |pool|
  {
    m :| m in pool;
    var rest := pool - {m};
    if rest != {} {
      var other := EarliestExists(rest);
      if other.arrival < m.arrival {
        m := other;
      }
    }
  }

  lemma NextExists(pool: set<Pending>) returns (x: Pending)
    requires Distinct(pool) && pool != {}
    ensures IsNext(pool, x)
  {
    var any :| any in pool;
    var head := HeadExists(pool, any);
    var heads := set p | p in pool && IsHead(pool, p);
    assert head in heads;
    x := EarliestExists(heads);
  }

  lemma NextUnique(pool: set<Pending>, x: Pending, y: Pending)
    requires Distinct(pool) && IsNext(pool, x) && IsNext(pool, y)
    ensures x == y
  {
  }

  /** All of the pool, in the order of emission. */
  ghost function Drain(pool: set<Pending>): (r: seq<Pending>)
    requires Distinct(pool)
    ensures |r| == |pool|
    decreases |pool|
  {
    if pool == {} then []
    else
      assert exists x :: IsNext(pool, x) by {
        var x := NextExists(pool);
      }
      var x :| IsNext(pool, x);
      [x] + Drain(pool - {x})
  }

  lemma DrainStep(pool: set<Pending>, x: Pending)
    requires Distinct(pool) && IsNext(pool, x)
    ensures Drain(pool) == [x] + Drain(pool - {x})
  {
    forall y | IsNext(pool, y)
      ensures y == x
    {
      NextUnique(pool, x, y);
    }
  }

  lemma {:induction false} DrainElements(pool: set<Pending>, p: Pending)
    requires Distinct(pool)
    ensures p in Drain(pool) <==> p in pool
    decreases |pool|
  {
    if pool != {} {
      var x := NextExists(pool);
      hide Drain, IsNext, IsHead;
      DrainFirst(pool, x);
      DrainElements(pool - {x}, p);
    }
  }

  lemma DrainAt(pool: set<Pending>, x: Pending, i: nat)
    requires Distinct(pool) && IsNext(pool, x) && i < |pool|
    ensures Drain(pool)[i] in pool && |pool - {x}| == |pool| - 1 && Distinct(pool - {x})
    ensures if i == 0 then Drain(pool)[i] == x
            else Drain(pool)[i] == Drain(pool - {x})[i - 1] && Drain(pool)[i] != x
  {
    assert x in pool && Distinct(pool - {x});
    hide Drain, IsNext, IsHead, Distinct;
    DrainStep(pool, x);
    if i > 0 {
      DrainElements(pool - {x}, Drain(pool - {x})[i - 1]);
    }
  }

  lemma {:induction false} DrainApart(pool: set<Pending>, i: nat, j: nat)
    requires Distinct(pool) && i < j < |pool|
    ensures Drain(pool)[i] != Drain(pool)[j]
    decreases |pool|
  {
    hide *;
    var x := NextExists(pool);
    DrainAt(pool, x, i);
    DrainAt(pool, x, j);
    if i > 0 {
      DrainApart(pool - {x}, i - 1, j - 1);
    }
  }

  /** Every pending transaction is emitted, and none twice. */
  lemma DrainIsWhole(pool: set<Pending>)
    requires Distinct(pool)
    ensures forall p :: p in Drain(pool) <==> p in pool
    ensures forall i, j :: 0 <= i < j < |pool| ==> Drain(pool)[i] != Drain(pool)[j]
  {
    hide Drain;
    forall p
      ensures p in Drain(pool) <==> p in pool
    {
      DrainElements(pool, p);
    }
    forall i, j | 0 <= i < j < |pool|
      ensures Drain(pool)[i] != Drain(pool)[j]
    {
      DrainApart(pool, i, j);
    }
  }

  lemma DrainFirst(pool: set<Pending>, x: Pending)
    requires Distinct(pool) && IsNext(pool, x)
    ensures x in pool && Drain(pool) == [x] + Drain(pool - {x})
    ensures forall y :: y in pool && Key(y) == Key(x) ==> y == x || Before(x, y)
  {
    DrainStep(pool, x);
  }

  /** One queue is emitted in ascending sequence, and ties in order of arrival. */
  lemma {:induction false} DrainKeepsQueueOrder(pool: set<Pending>, i: nat, j: nat)
    requires Distinct(pool) && i < j < |pool| && Key(Drain(pool)[i]) == Key(Drain(pool)[j])
    ensures Before(Drain(pool)[i], Drain(pool)[j])
    decreases |pool|
  {
    var x := NextExists(pool);
    hide Drain, IsNext, IsHead, Before;
    DrainFirst(pool, x);
    if i == 0 {
      DrainElements(pool - {x}, Drain(pool - {x})[j - 1]);
    } else {
      DrainKeepsQueueOrder(pool - {x}, i - 1, j - 1);
    }
  }

  // ----- a closed form of the merge -----

  /** `x` and everything that waits before it in its queue. */
  ghost function UpTo(pool: set<Pending>, x: Pending): set<Pending> {
    set y | y in pool && Key(y) == Key(x) && (y == x || Before(y, x))
  }

  ghost predicate IsLatest(s: set<Pending>, m: Pending) {
    m in s && (forall p <- s :: p.arrival <= m.arrival)
  }

  lemma {:induction false} LatestExists(s: set<Pending>) returns (m: Pending)
    requires s != {}
    ensures IsLatest(s, m)
    decreases |s|
  {
    m :| m in s;
    var rest := s - {m};
    assert s == rest + {m};
    if rest != {} {
      var other := LatestExists(rest);
      if other.arrival > m.arrival {
        m := other;
      }
    }
  }

  /** When `x` is due: once it and everything queued before it has arrived. */
  ghost function Due(pool: set<Pending>, x: Pending): nat
    requires x in pool
  {
    assert x in UpTo(pool, x);
    assert exists m :: IsLatest(UpTo(pool, x), m) by {
      var m := LatestExists(UpTo(pool, x));
    }
    var m :| IsLatest(UpTo(pool, x), m);
    m.arrival
  }

  lemma DueIsMax(pool: set<Pending>, x: Pending) returns (m: Pending)
    requires x in pool
    ensures IsLatest(UpTo(pool, x), m) && Due(pool, x) == m.arrival
  {
    assert x in UpTo(pool, x);
    m := LatestExists(UpTo(pool, x));
  }

  lemma UpToWithoutHead(pool: set<Pending>, h: Pending, x: Pending)
    requires IsHead(pool, h) && x in pool && x != h
    ensures UpTo(pool, x) == UpTo(pool - {h}, x) + if Key(x) == Key(h) then {h} else {}
  {
  }

  /** What waits before `x` arrives no earlier than the next to be emitted. */
  lemma NextArrivesFirst(pool: set<Pending>, h: Pending, x: Pending, m: Pending)
    requires Distinct(pool) && IsNext(pool, h) && x in pool && IsLatest(UpTo(pool, x), m)
    ensures h.arrival <= m.arrival
  {
    var g := HeadExists(pool, x);
    hide IsHead, Before, Key;
    assert g in pool && g in UpTo(pool, x);
  }

  /** Emitting the next transaction delays no other past its arrival. */
  lemma DueStep(pool: set<Pending>, h: Pending, x: Pending)
    requires Distinct(pool) && IsNext(pool, h) && x in pool && x != h
    ensures Due(pool, x) == if h.arrival <= Due(pool - {h}, x) then Due(pool - {h}, x) else h.arrival
  {
    assert IsHead(pool, h);
    hide Due, UpTo, IsNext, IsHead, Distinct, Key;
    var m := DueIsMax(pool, x);
    var m' := DueIsMax(pool - {h}, x);
    UpToWithoutHead(pool, h, x);
    NextArrivesFirst(pool, h, x, m);
  }

  lemma DueOfHead(pool: set<Pending>, h: Pending)
    requires IsHead(pool, h) && Distinct(pool)
    ensures Due(pool, h) == h.arrival
  {
    var m := DueIsMax(pool, h);
    assert m == h;
  }

  lemma DueOfNext(pool: set<Pending>, h: Pending)
    requires IsNext(pool, h) && Distinct(pool)
    ensures h in pool && Due(pool, h) == h.arrival
  {
    DueOfHead(pool, h);
  }

  /** The merge by queue heads emits transactions in the order in which they fall due. */
  lemma {:induction false} DrainIsByDue(pool: set<Pending>, i: nat, j: nat)
    requires Distinct(pool) && i < j < |pool|
    ensures Drain(pool)[i] in pool && Drain(pool)[j] in pool
    ensures Due(pool, Drain(pool)[i]) <= Due(pool, Drain(pool)[j])
    decreases |pool|
  {
    hide *;
    var x := NextExists(pool);
    var b := Drain(pool)[j];
    DrainAt(pool, x, j);
    DueStep(pool, x, b);
    DrainAt(pool, x, i);
    if i == 0 {
      DueOfNext(pool, x);
    } else {
      DueStep(pool, x, Drain(pool)[i]);
      DrainIsByDue(pool - {x}, i - 1, j - 1);
    }
  }

  /** Transactions of different queues are never due together. */
  lemma DueDiffers(pool: set<Pending>, x: Pending, y: Pending)
    requires Distinct(pool) && x in pool && y in pool && Key(x) != Key(y)
    ensures Due(pool, x) != Due(pool, y)
  {
    var a := DueIsMax(pool, x);
    var b := DueIsMax(pool, y);
  }

  /** A transaction that shares its queue with no other is due when it arrives. */
  lemma DueAlone(pool: set<Pending>, x: Pending)
    requires Distinct(pool) && x in pool
    requires forall y :: y in pool && Key(y) == Key(x) ==> y == x
    ensures Due(pool, x) == x.arrival
  {
    DueOfHead(pool, x);
  }

  /** Each queue's transactions stand together. */
  ghost predicate Contiguous(s: seq<Pending>) {
    forall i, j, k :: 0 <= i < j < k < |s| && Key(s[i]) == Key(s[k]) ==> Key(s[j]) == Key(s[i])
  }

  /** No other queue's transaction falls due between two of one queue. */
  ghost predicate NoneDueBetween(pool: set<Pending>) {
    forall x, y, z :: x in pool && y in pool && z in pool && Key(x) == Key(z) != Key(y) ==>
      !(Due(pool, x) < Due(pool, y) < Due(pool, z))
  }

  lemma PositionOf(s: seq<Pending>, x: Pending) returns (i: nat)
    requires x in s
    ensures i < |s| && s[i] == x
  {
    i :| 0 <= i < |s| && s[i] == x;
  }

  /** Senders' transactions come out contiguously iff none of another sender falls due
      between two of theirs. */
  lemma ContiguousIff(pool: set<Pending>)
    requires Distinct(pool)
    ensures Contiguous(Drain(pool)) <==> NoneDueBetween(pool)
  {
    hide Drain, Due, Key, Distinct;
    var d := Drain(pool);
    if NoneDueBetween(pool) {
      forall i, j, k | 0 <= i < j < k < |d| && Key(d[i]) == Key(d[k])
        ensures Key(d[j]) == Key(d[i])
      {
        if Key(d[j]) != Key(d[i]) {
          DueBetween(pool, i, j, k);
        }
      }
    } else {
      var x, y, z :| x in pool && y in pool && z in pool && Key(x) == Key(z) != Key(y) &&
                     Due(pool, x) < Due(pool, y) < Due(pool, z);
      var i, j := DueInOrder(pool, x, y);
      var j', k := DueInOrder(pool, y, z);
      if j != j' {
        DrainApart(pool, if j < j' then j else j', if j < j' then j' else j);
      }
      assert i < j < k && Key(d[j]) != Key(d[i]);
    }
  }

  /** Of two transactions, the one due earlier stands earlier. */
  lemma DueInOrder(pool: set<Pending>, x: Pending, y: Pending) returns (i: nat, j: nat)
    requires Distinct(pool) && x in pool && y in pool && Due(pool, x) < Due(pool, y)
    ensures i < j < |pool| && Drain(pool)[i] == x && Drain(pool)[j] == y
  {
    hide Drain, Due, Distinct;
    DrainElements(pool, x);
    DrainElements(pool, y);
    i := PositionOf(Drain(pool), x);
    j := PositionOf(Drain(pool), y);
    if j < i {
      DrainIsByDue(pool, j, i);
    }
  }

  lemma DueBetween(pool: set<Pending>, i: nat, j: nat, k: nat)
    requires Distinct(pool) && i < j < k < |pool|
    requires Key(Drain(pool)[i]) == Key(Drain(pool)[k]) != Key(Drain(pool)[j])
    ensures var d := Drain(pool);
            && d[i] in pool && d[j] in pool && d[k] in pool
            && Due(pool, d[i]) < Due(pool, d[j]) < Due(pool, d[k])
  {
    hide Drain, Due, Key;
    var d := Drain(pool);
    DrainIsByDue(pool, i, j);
    DrainIsByDue(pool, j, k);
    DueDiffers(pool, d[i], d[j]);
    DueDiffers(pool, d[j], d[k]);
  }

  // ----- the budgets -----

  ghost function Size(s: seq<Pending>): nat {
    if s == [] then 0 else |s[0].tx| + Size(s[1..])
  }

  /** Walk the order, skipping what no longer fits, until the count is reached. */
  ghost function Fill(order: seq<Pending>, maxTxs: nat, used: nat, maxBytes: nat): seq<Pending> {
    if maxTxs == 0 || order == [] then []
    else if used + |order[0].tx| > maxBytes then Fill(order[1..], maxTxs, used, maxBytes)
    else [order[0]] + Fill(order[1..], maxTxs - 1, used + |order[0].tx|, maxBytes)
  }

  lemma {:induction false} FillWithinBudgets(order: seq<Pending>, maxTxs: nat, used: nat, maxBytes: nat)
    requires used <= maxBytes
    ensures var f := Fill(order, maxTxs, used, maxBytes);
            |f| <= maxTxs && used + Size(f) <= maxBytes
    decreases |order|
  {
    if maxTxs > 0 && order != [] {
      if used + |order[0].tx| > maxBytes {
        FillWithinBudgets(order[1..], maxTxs, used, maxBytes);
      } else {
        FillWithinBudgets(order[1..], maxTxs - 1, used + |order[0].tx|, maxBytes);
        assert Fill(order, maxTxs, used, maxBytes)[1..] ==
               Fill(order[1..], maxTxs - 1, used + |order[0].tx|, maxBytes);
      }
    }
  }

  ghost predicate Ascending(at: seq<nat>) {
    forall i, j :: 0 <= i < j < |at| ==> at[i] < at[j]
  }

  ghost predicate Selects(order: seq<Pending>, at: seq<nat>, f: seq<Pending>) {
    |at| == |f| && Ascending(at) && (forall i :: 0 <= i < |at| ==> at[i] < |order| && order[at[i]] == f[i])
  }

  ghost function Shifted(at: seq<nat>): seq<nat> {
    seq(|at|, i requires 0 <= i < |at| => at[i] + 1)
  }

  lemma FillStep(order: seq<Pending>, maxTxs: nat, used: nat, maxBytes: nat)
    requires order != [] && maxTxs > 0
    ensures Fill(order, maxTxs, used, maxBytes) ==
            if used + |order[0].tx| > maxBytes then Fill(order[1..], maxTxs, used, maxBytes)
            else [order[0]] + Fill(order[1..], maxTxs - 1, used + |order[0].tx|, maxBytes)
  {
  }

  lemma SelectsSkip(order: seq<Pending>, at: seq<nat>, f: seq<Pending>)
    requires order != [] && Selects(order[1..], at, f)
    ensures Selects(order, Shifted(at), f)
  {
  }

  lemma SelectsTake(order: seq<Pending>, at: seq<nat>, f: seq<Pending>)
    requires order != [] && Selects(order[1..], at, f)
    ensures Selects(order, [0] + Shifted(at), [order[0]] + f)
  {
  }

  /** The batch is a subsequence of the order. */
  lemma {:induction false} FillSelects(order: seq<Pending>, maxTxs: nat, used: nat, maxBytes: nat)
    returns (at: seq<nat>)
    ensures Selects(order, at, Fill(order, maxTxs, used, maxBytes))
    decreases |order|
  {
    at := [];
    if maxTxs > 0 && order != [] {
      hide Selects, Fill;
      FillStep(order, maxTxs, used, maxBytes);
      if used + |order[0].tx| > maxBytes {
        var rest := FillSelects(order[1..], maxTxs, used, maxBytes);
        SelectsSkip(order, rest, Fill(order[1..], maxTxs, used, maxBytes));
        at := Shifted(rest);
      } else {
        var rest := FillSelects(order[1..], maxTxs - 1, used + |order[0].tx|, maxBytes);
        SelectsTake(order, rest, Fill(order[1..], maxTxs - 1, used + |order[0].tx|, maxBytes));
        at := [0] + Shifted(rest);
      }
    }
  }

  /** When the count is not reached, nothing left out would still fit. */
  lemma {:induction false} FillIsFull(order: seq<Pending>, maxTxs: nat, used: nat, maxBytes: nat, p: Pending)
    requires p in order
    ensures var f := Fill(order, maxTxs, used, maxBytes);
            |f| < maxTxs && p !in f ==> used + Size(f) + |p.tx| > maxBytes
    decreases |order|
  {
    if maxTxs > 0 {
      var f := Fill(order, maxTxs, used, maxBytes);
      if used + |order[0].tx| > maxBytes {
        if p != order[0] {
          FillIsFull(order[1..], maxTxs, used, maxBytes, p);
        }
      } else if p != order[0] {
        FillIsFull(order[1..], maxTxs - 1, used + |order[0].tx|, maxBytes, p);
        assert f[1..] == Fill(order[1..], maxTxs - 1, used + |order[0].tx|, maxBytes);
      }
    }
  }

  /** What stands at `i` is taken iff, next to the `k` taken before it, both budgets still
      have room. */
  lemma {:induction false} FillTakes(order: seq<Pending>, maxTxs: nat, used: nat, maxBytes: nat, i: nat)
    returns (k: nat)
    requires i < |order| && (forall x, y :: 0 <= x < y < |order| ==> order[x] != order[y])
    ensures TakenAfter(order, Fill(order, maxTxs, used, maxBytes), i, k)
    ensures order[i] in Fill(order, maxTxs, used, maxBytes) <==>
            k < maxTxs && used + Size(Fill(order, maxTxs, used, maxBytes)[..k]) + |order[i].tx| <= maxBytes
    decreases |order|
  {
    k := 0;
    if maxTxs > 0 {
      var f := Fill(order, maxTxs, used, maxBytes);
      if used + |order[0].tx| > maxBytes {
        var at := FillSelects(order[1..], maxTxs, used, maxBytes);
        assert order[0] !in f;
        if i > 0 {
          k := FillTakes(order[1..], maxTxs, used, maxBytes, i - 1);
          TakenSkip(order, f, i, k);
        }
      } else if i > 0 {
        var rest := Fill(order[1..], maxTxs - 1, used + |order[0].tx|, maxBytes);
        k := FillTakes(order[1..], maxTxs - 1, used + |order[0].tx|, maxBytes, i - 1);
        TakenStep(order, rest, i, k);
        assert f[..k + 1] == [order[0]] + rest[..k] && f[..k + 1][1..] == rest[..k];
        k := k + 1;
      }
    }
  }

  /** Of what stands before `i`, the first `k` of `f` are all that is in it. */
  ghost predicate TakenAfter(order: seq<Pending>, f: seq<Pending>, i: nat, k: nat) {
    k <= |f| && i <= |order| && (forall j :: 0 <= j < i ==> (order[j] in f <==> order[j] in f[..k]))
  }

  lemma TakenSkip(order: seq<Pending>, f: seq<Pending>, i: nat, k: nat)
    requires 0 < i < |order| && order[0] !in f && TakenAfter(order[1..], f, i - 1, k)
    ensures TakenAfter(order, f, i, k)
  {
    forall j | 0 < j < i
      ensures order[j] in f <==> order[j] in f[..k]
    {
      assert order[j] == order[1..][j - 1];
    }
  }

  lemma TakenStep(order: seq<Pending>, rest: seq<Pending>, i: nat, k: nat)
    requires 0 < i < |order| && TakenAfter(order[1..], rest, i - 1, k)
    ensures TakenAfter(order, [order[0]] + rest, i, k + 1)
  {
    var f := [order[0]] + rest;
    assert f[..k + 1] == [order[0]] + rest[..k];
    forall j | 0 <= j < i
      ensures order[j] in f <==> order[j] in f[..k + 1]
    {
      if j > 0 {
        assert order[j] == order[1..][j - 1];
      }
    }
  }

  /** What a proposal carries. */
  ghost function Peek(pool: set<Pending>, maxTxs: nat, maxBytes: nat): seq<Pending>
    requires Distinct(pool)
  {
    Fill(Drain(pool), maxTxs, 0, maxBytes)
  }

  /** Distinct pending transactions, within both budgets; when fewer than `maxTxs`, no
      pending one that was left out still fits. */
  lemma PeekIsMaximal(pool: set<Pending>, maxTxs: nat, maxBytes: nat)
    requires Distinct(pool)
    ensures var batch := Peek(pool, maxTxs, maxBytes);
            && |batch| <= maxTxs && Size(batch) <= maxBytes
            && (forall p <- batch :: p in pool)
            && (forall i, j :: 0 <= i < j < |batch| ==> batch[i] != batch[j])
            && (|batch| < maxTxs ==>
                  forall p <- pool :: p !in batch ==> Size(batch) + |p.tx| > maxBytes)
  {
    hide Drain, Fill;
    var d, batch := Drain(pool), Peek(pool, maxTxs, maxBytes);
    FillWithinBudgets(d, maxTxs, 0, maxBytes);
    var at := FillSelects(d, maxTxs, 0, maxBytes);
    forall i | 0 <= i < |batch|
      ensures batch[i] in pool
    {
      DrainElements(pool, d[at[i]]);
    }
    forall i, j | 0 <= i < j < |batch|
      ensures batch[i] != batch[j]
    {
      DrainApart(pool, at[i], at[j]);
    }
    forall p | p in pool && p !in batch && |batch| < maxTxs
      ensures Size(batch) + |p.tx| > maxBytes
    {
      DrainElements(pool, p);
      FillIsFull(d, maxTxs, 0, maxBytes, p);
    }
  }

  /** The batch follows the order of emission. */
  lemma PeekFollowsDrain(pool: set<Pending>, maxTxs: nat, maxBytes: nat) returns (at: seq<nat>)
    requires Distinct(pool)
    ensures Selects(Drain(pool), at, Peek(pool, maxTxs, maxBytes))
  {
    at := FillSelects(Drain(pool), maxTxs, 0, maxBytes);
  }

  /** Which ones, exactly: one is taken iff, next to the `k` taken of those that come before
      it in the order, both budgets still have room for it. */
  lemma TakenIffFits(pool: set<Pending>, maxTxs: nat, maxBytes: nat, i: nat) returns (k: nat)
    requires Distinct(pool) && i < |pool|
    ensures TakenAfter(Drain(pool), Peek(pool, maxTxs, maxBytes), i, k)
    ensures Drain(pool)[i] in Peek(pool, maxTxs, maxBytes) <==>
            k < maxTxs && Size(Peek(pool, maxTxs, maxBytes)[..k]) + |Drain(pool)[i].tx| <= maxBytes
  {
    hide Drain, Fill;
    DrainIsWhole(pool);
    k := FillTakes(Drain(pool), maxTxs, 0, maxBytes, i);
  }

  /** In one batch a sender's transactions stand in ascending (sequence, arrival). */
  lemma PeekKeepsSenderOrder(pool: set<Pending>, maxTxs: nat, maxBytes: nat, i: nat, j: nat)
    requires Distinct(pool) && i < j < |Peek(pool, maxTxs, maxBytes)|
    requires Key(Peek(pool, maxTxs, maxBytes)[i]) == Key(Peek(pool, maxTxs, maxBytes)[j])
    ensures Before(Peek(pool, maxTxs, maxBytes)[i], Peek(pool, maxTxs, maxBytes)[j])
  {
    hide Drain, Fill, Before, Key;
    var at := FillSelects(Drain(pool), maxTxs, 0, maxBytes);
    DrainKeepsQueueOrder(pool, at[i], at[j]);
  }

  /** Hashes name pending transactions, and no sender's name is the hexadecimal form of
      a hash pending without metadata. */
  ghost predicate KeysApart(pool: set<Pending>) {
    && (forall x, y :: x in pool && y in pool && x.hash == y.hash ==> x == y)
    && (forall x, y :: x in pool && y in pool && x.meta.None? && y.meta.Some? ==>
          y.meta.value.sender != Hex.Encode(x.hash))
  }

  lemma AloneInQueue(pool: set<Pending>, x: Pending)
    requires Distinct(pool) && KeysApart(pool) && x in pool && x.meta.None?
    ensures Due(pool, x) == x.arrival
  {
    forall y | y in pool && Key(y) == Key(x)
      ensures y == x
    {
      if y.meta.None? {
        Hex.Injective(x.hash, y.hash);
      }
    }
    DueAlone(pool, x);
  }

  /** Transactions without metadata keep their order of arrival. */
  lemma PeekKeepsArrivalOrder(pool: set<Pending>, maxTxs: nat, maxBytes: nat, i: nat, j: nat)
    requires Distinct(pool) && KeysApart(pool) && i < j < |Peek(pool, maxTxs, maxBytes)|
    requires Peek(pool, maxTxs, maxBytes)[i].meta.None? && Peek(pool, maxTxs, maxBytes)[j].meta.None?
    ensures Peek(pool, maxTxs, maxBytes)[i].arrival < Peek(pool, maxTxs, maxBytes)[j].arrival
  {
    hide Drain, Fill, Due, KeysApart;
    var d := Drain(pool);
    var at := FillSelects(d, maxTxs, 0, maxBytes);
    DrainIsByDue(pool, at[i], at[j]);
    DrainApart(pool, at[i], at[j]);
    AloneInQueue(pool, d[at[i]]);
    AloneInQueue(pool, d[at[j]]);
  }

  // ----- contiguous or not -----

  /** With room for everything, everything is carried. */
  lemma {:induction false} FillAll(order: seq<Pending>, maxTxs: nat, used: nat, maxBytes: nat)
    requires |order| <= maxTxs && used + Size(order) <= maxBytes
    ensures Fill(order, maxTxs, used, maxBytes) == order
    decreases |order|
  {
    if order != [] {
      FillAll(order[1..], maxTxs - 1, used + |order[0].tx|, maxBytes);
      assert order == [order[0]] + order[1..];
    }
  }

  lemma PeekAll(pool: set<Pending>)
    requires Distinct(pool)
    ensures Peek(pool, |pool|, Size(Drain(pool))) == Drain(pool)
  {
    hide Drain, Fill, Size;
    FillAll(Drain(pool), |pool|, 0, Size(Drain(pool)));
  }

  lemma SelectedStaysContiguous(order: seq<Pending>, at: seq<nat>, f: seq<Pending>)
    requires Contiguous(order) && Selects(order, at, f)
    ensures Contiguous(f)
  {
    hide Key;
    forall i, j, k | 0 <= i < j < k < |f| && Key(f[i]) == Key(f[k])
      ensures Key(f[j]) == Key(f[i])
    {
      assert at[i] < at[j] < at[k];
      assert order[at[i]] == f[i] && order[at[j]] == f[j] && order[at[k]] == f[k];
    }
  }

  /** Every batch carries its senders contiguously, whatever the budgets, iff no
      transaction falls due between two of another sender. */
  lemma BatchesContiguousIff(pool: set<Pending>)
    requires Distinct(pool)
    ensures (forall maxTxs, maxBytes :: Contiguous(Peek(pool, maxTxs, maxBytes))) <==> NoneDueBetween(pool)
  {
    hide Drain, Fill, Contiguous, NoneDueBetween, Selects;
    ContiguousIff(pool);
    if NoneDueBetween(pool) {
      forall maxTxs, maxBytes
        ensures Contiguous(Peek(pool, maxTxs, maxBytes))
      {
        var at := FillSelects(Drain(pool), maxTxs, 0, maxBytes);
        SelectedStaysContiguous(Drain(pool), at, Peek(pool, maxTxs, maxBytes));
      }
    }
    PeekAll(pool);
  }

  /** A batch is not always contiguous, whatever its documentation says: a transaction of
      another sender that arrives between two of one sender comes out between them. */
  lemma InterleavingHappens(a: Pending, b: Pending, c: Pending)
    requires a.meta == Some(TxMeta([65], 0, false)) && a.arrival == 0
    requires b.meta == Some(TxMeta([66], 0, false)) && b.arrival == 1
    requires c.meta == Some(TxMeta([65], 1, false)) && c.arrival == 2
    ensures Distinct({a, b, c}) && !Contiguous(Peek({a, b, c}, |{a, b, c}|, Size(Drain({a, b, c}))))
  {
    var pool := {a, b, c};
    DueOfHead(pool, a);
    DueOfHead(pool, b);
    var m := DueIsMax(pool, c);
    hide Due, Drain;
    assert c in UpTo(pool, c);
    assert Due(pool, a) < Due(pool, b) < Due(pool, c);
    ContiguousIff(pool);
    PeekAll(pool);
  }
}
