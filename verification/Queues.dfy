/** The queues and head set with which a batch is picked, proved to emit the order of
    `Batch.Drain`. */
module Queues {
  import opened Common
  import opened Batch
  import Hex

  /** (sequence, arrival), as queued. */
  type Slot = (nat, nat)

  predicate SlotBefore(s: Slot, t: Slot) {
    s.0 < t.0 || (s.0 == t.0 && s.1 < t.1)
  }

  function SlotOf(p: Pending): Slot {
    (Rank(p), p.arrival)
  }

  /** Pending transactions by arrival. */
  function Entries(order: map<nat, (Bytes, Bytes)>, meta: map<Bytes, TxMeta>): map<nat, Pending> {
    map a | a in order ::
      Pending(a, order[a].0, order[a].1, if order[a].0 in meta then Some(meta[order[a].0]) else None)
  }

  ghost predicate ByArrival(entries: map<nat, Pending>) {
    forall a <- entries :: entries[a].arrival == a
  }

  ghost function Those(entries: map<nat, Pending>, left: set<nat>): set<Pending>
    requires left <= entries.Keys
  {
    set a | a in left :: entries[a]
  }

  lemma ThoseDistinct(entries: map<nat, Pending>, left: set<nat>)
    requires ByArrival(entries) && left <= entries.Keys
    ensures Distinct(Those(entries, left))
  {
  }

  /** The queues hold the slots of `left`, each in its own queue. */
  ghost predicate Listed(entries: map<nat, Pending>, queues: map<Bytes, seq<Slot>>, left: set<nat>) {
    && left <= entries.Keys
    && (forall k, s :: k in queues && s in queues[k] ==>
          s.1 in left && Key(entries[s.1]) == k && s == SlotOf(entries[s.1]))
    && (forall a <- left :: Key(entries[a]) in queues && SlotOf(entries[a]) in queues[Key(entries[a])])
  }

  ghost predicate NoRepeats(q: seq<Slot>) {
    forall i, j :: 0 <= i < j < |q| ==> q[i] != q[j]
  }

  ghost predicate InOrder(q: seq<Slot>) {
    forall i, j :: 0 <= i < j < |q| ==> SlotBefore(q[i], q[j])
  }

  function QueueAt(queues: map<Bytes, seq<Slot>>, key: Bytes): seq<Slot> {
    if key in queues then queues[key] else []
  }

  lemma EarliestArrival(todo: set<nat>) returns (a: nat)
    requires todo != {}
    ensures a in todo && (forall b <- todo :: a <= b)
    decreases |todo|
  {
    a :| a in todo;
    var rest := todo - {a};
    assert todo == rest + {a};
    if rest != {} {
      var other := EarliestArrival(rest);
      if other < a {
        a := other;
      }
    }
  }

  lemma Pushed(entries: map<nat, Pending>, queues: map<Bytes, seq<Slot>>, left: set<nat>, a: nat)
    requires ByArrival(entries) && Listed(entries, queues, left) && a in entries && a !in left
    requires forall k <- queues :: NoRepeats(queues[k])
    ensures var p := entries[a];
            var queues' := queues[Key(p) := QueueAt(queues, Key(p)) + [SlotOf(p)]];
            && Listed(entries, queues', left + {a})
            && (forall k <- queues' :: NoRepeats(queues'[k]))
  {
    hide Key, Rank;
    var p := entries[a];
    var q := QueueAt(queues, Key(p));
    assert forall i :: 0 <= i < |q| ==> q[i] in q;
    assert SlotOf(p) in q + [SlotOf(p)];
    assert forall s :: s in q + [SlotOf(p)] <==> s in q || s == SlotOf(p);
  }

  /** One queue per sender; a transaction without metadata gets one named by its hash. */
  method Build(order: map<nat, (Bytes, Bytes)>, meta: map<Bytes, TxMeta>) returns (queues: map<Bytes, seq<Slot>>)
    ensures Listed(Entries(order, meta), queues, order.Keys)
    ensures forall k <- queues :: NoRepeats(queues[k])
  {
    hide Listed, NoRepeats;
    ghost var entries := Entries(order, meta);
    queues := map[];
    var todo := order.Keys;
    assert Listed(entries, queues, order.Keys - todo) by {
      NothingListed(entries);
      assert order.Keys - todo == {};
    }
    while todo != {}
      invariant todo <= order.Keys
      invariant Listed(entries, queues, order.Keys - todo)
      invariant forall k <- queues :: NoRepeats(queues[k])
      decreases |todo|
    {
      ghost var earliest := EarliestArrival(todo);
      var a :| a in todo && (forall b <- todo :: a <= b);
      var hash := order[a].0;
      var key, rank :=
        if hash in meta then meta[hash].sender else Hex.Encode(hash),
        if hash in meta then meta[hash].sequence else U64_MAX;
      Pushed(entries, queues, order.Keys - todo, a);
      assert order.Keys - todo + {a} == order.Keys - (todo - {a});
      queues := queues[key := QueueAt(queues, key) + [(rank, a)]];
      todo := todo - {a};
    }
    assert order.Keys - todo == order.Keys;
  }

  lemma NothingListed(entries: map<nat, Pending>)
    ensures Listed(entries, map[], {})
  {
  }

  // ----- sorting a queue -----

  function Insert(q: seq<Slot>, s: Slot): seq<Slot> {
    if q == [] || SlotBefore(s, q[0]) then [s] + q else [q[0]] + Insert(q[1..], s)
  }

  function Sort(q: seq<Slot>): seq<Slot> {
    if q == [] then [] else Insert(Sort(q[1..]), q[0])
  }

  lemma {:induction false} InsertElements(q: seq<Slot>, s: Slot, t: Slot)
    ensures t in Insert(q, s) <==> t in q || t == s
    decreases |q|
  {
    if q != [] && !SlotBefore(s, q[0]) {
      InsertElements(q[1..], s, t);
      assert q == [q[0]] + q[1..];
    }
  }

  lemma {:induction false} InsertSorts(q: seq<Slot>, s: Slot)
    requires InOrder(q) && s !in q
    ensures InOrder(Insert(q, s))
    decreases |q|
  {
    if q != [] && !SlotBefore(s, q[0]) {
      var rest := Insert(q[1..], s);
      InsertSorts(q[1..], s);
      forall j | 0 <= j < |rest|
        ensures SlotBefore(q[0], rest[j])
      {
        InsertElements(q[1..], s, rest[j]);
      }
    }
  }

  lemma {:induction false} SortSorts(q: seq<Slot>)
    requires NoRepeats(q)
    ensures InOrder(Sort(q)) && (forall t :: t in Sort(q) <==> t in q)
    decreases |q|
  {
    if q != [] {
      SortSorts(q[1..]);
      forall t
        ensures t in Sort(q) <==> t in q
      {
        InsertElements(Sort(q[1..]), q[0], t);
        assert q == [q[0]] + q[1..];
      }
      InsertSorts(Sort(q[1..]), q[0]);
    }
  }

  /** Only the elements of a queue matter to what it lists. */
  lemma SortedListed(entries: map<nat, Pending>, queues: map<Bytes, seq<Slot>>, left: set<nat>, k: Bytes, q: seq<Slot>)
    requires Listed(entries, queues, left) && k in queues
    requires forall t :: t in q <==> t in queues[k]
    ensures Listed(entries, queues[k := q], left)
  {
    hide Key, Rank;
  }

  method SortAll(queues: map<Bytes, seq<Slot>>, ghost entries: map<nat, Pending>, ghost left: set<nat>)
    returns (sorted: map<Bytes, seq<Slot>>)
    requires Listed(entries, queues, left) && (forall k <- queues :: NoRepeats(queues[k]))
    ensures Listed(entries, sorted, left) && (forall k <- sorted :: InOrder(sorted[k]))
  {
    hide Sort, NoRepeats, InOrder, Listed;
    sorted := queues;
    var todo := queues.Keys;
    while todo != {}
      invariant todo <= queues.Keys && sorted.Keys == queues.Keys
      invariant forall k <- todo :: sorted[k] == queues[k]
      invariant forall k <- queues.Keys - todo :: InOrder(sorted[k])
      invariant Listed(entries, sorted, left)
      decreases |todo|
    {
      var k :| k in todo;
      SortSorts(queues[k]);
      SortedListed(entries, sorted, left, k, Sort(queues[k]));
      sorted := sorted[k := Sort(queues[k])];
      todo := todo - {k};
    }
  }

  // ----- the merge -----

  ghost function Heads(queues: map<Bytes, seq<Slot>>): set<(nat, Bytes)> {
    set k | k in queues && queues[k] != [] :: (queues[k][0].1, k)
  }

  lemma EarliestHead(heads: set<(nat, Bytes)>) returns (h: (nat, Bytes))
    requires heads != {}
    ensures h in heads && (forall g <- heads :: h.0 <= g.0)
    decreases |heads|
  {
    h :| h in heads;
    var rest := heads - {h};
    assert heads == rest + {h};
    if rest != {} {
      var other := EarliestHead(rest);
      if other.0 < h.0 {
        h := other;
      }
    }
  }

  ghost predicate Ready(entries: map<nat, Pending>, queues: map<Bytes, seq<Slot>>, left: set<nat>) {
    ByArrival(entries) && Listed(entries, queues, left) && (forall k <- queues :: InOrder(queues[k]))
  }

  /** The smallest head is what `Drain` emits next. */
  lemma HeadIsNext(entries: map<nat, Pending>, queues: map<Bytes, seq<Slot>>, left: set<nat>, h: (nat, Bytes))
    requires Ready(entries, queues, left) && h in Heads(queues) && (forall g <- Heads(queues) :: h.0 <= g.0)
    ensures h.0 in left && IsNext(Those(entries, left), entries[h.0])
  {
    hide Key, Rank;
    var pool, x := Those(entries, left), entries[h.0];
    var q := queues[h.1];
    assert q[0] in q;
    forall y | y in pool && Key(y) == Key(x)
      ensures y == x || Before(x, y)
    {
      var i :| 0 <= i < |q| && q[i] == SlotOf(y);
    }
    forall y | IsHead(pool, y)
      ensures h.0 <= y.arrival
    {
      var q' := queues[Key(y)];
      assert SlotOf(y) in q' && q'[0] in q';
      var z := entries[q'[0].1];
      assert z in pool && Key(z) == Key(y);
      assert z == y || Before(z, y) by {
        var i :| 0 <= i < |q'| && q'[i] == SlotOf(y);
      }
      assert (y.arrival, Key(y)) in Heads(queues);
    }
  }

  lemma RestInOrder(q: seq<Slot>)
    requires InOrder(q) && q != []
    ensures InOrder(q[1..]) && (forall s <- q[1..] :: s.1 != q[0].1 || s.0 != q[0].0)
  {
  }

  lemma RestListed(entries: map<nat, Pending>, queues: map<Bytes, seq<Slot>>, left: set<nat>, k: Bytes)
    requires ByArrival(entries) && Listed(entries, queues, left) && k in queues && queues[k] != []
    requires forall s <- queues[k][1..] :: s.1 != queues[k][0].1 || s.0 != queues[k][0].0
    ensures Listed(entries, queues[k := queues[k][1..]], left - {queues[k][0].1})
  {
    hide Key, Rank;
    var q := queues[k];
    var rest, a := q[1..], q[0].1;
    assert q[0] in q && q == [q[0]] + rest;
    assert forall s <- rest :: s in q && s.1 != a;
    assert forall b <- left - {a} :: Key(entries[b]) == k ==> SlotOf(entries[b]) in rest;
  }

  /** Taking the head off its queue leaves the queues of the rest. */
  lemma Popped(entries: map<nat, Pending>, queues: map<Bytes, seq<Slot>>, left: set<nat>, k: Bytes)
    requires Ready(entries, queues, left) && k in queues && queues[k] != []
    ensures Ready(entries, queues[k := queues[k][1..]], left - {queues[k][0].1})
  {
    hide Listed, InOrder, ByArrival;
    RestInOrder(queues[k]);
    RestListed(entries, queues, left, k);
  }

  lemma InHeads(queues: map<Bytes, seq<Slot>>, h: (nat, Bytes))
    ensures h in Heads(queues) <==> h.1 in queues && queues[h.1] != [] && queues[h.1][0].1 == h.0
  {
  }

  lemma HeadsPopped(queues: map<Bytes, seq<Slot>>, k: Bytes)
    requires k in queues && queues[k] != []
    ensures var rest := queues[k][1..];
            var others := Heads(queues) - {(queues[k][0].1, k)};
            Heads(queues[k := rest]) == if rest == [] then others else others + {(rest[0].1, k)}
  {
    var rest := queues[k][1..];
    var others := Heads(queues) - {(queues[k][0].1, k)};
    var after := if rest == [] then others else others + {(rest[0].1, k)};
    forall h
      ensures h in Heads(queues[k := rest]) <==> h in after
    {
      hide Heads;
      InHeads(queues, h);
      InHeads(queues[k := rest], h);
    }
  }

  ghost function Txs(s: seq<Pending>): seq<Bytes> {
    seq(|s|, i requires 0 <= i < |s| => s[i].tx)
  }

  /** The initial head set. */
  method CollectHeads(queues: map<Bytes, seq<Slot>>) returns (heads: set<(nat, Bytes)>)
    ensures heads == Heads(queues)
  {
    heads := set k | k in queues && queues[k] != [] :: (queues[k][0].1, k);
  }

  /** `taken` so far, and what the rest of the walk adds. */
  ghost predicate Continues(pool: set<Pending>, taken: seq<Pending>, bytes: nat, maxTxs: nat, maxBytes: nat,
                            answer: seq<Pending>)
  {
    Distinct(pool) && |taken| <= maxTxs && answer == taken + Fill(Drain(pool), maxTxs - |taken|, bytes, maxBytes)
  }

  lemma TakeNext(pool: set<Pending>, x: Pending, taken: seq<Pending>, bytes: nat, maxTxs: nat, maxBytes: nat,
                 answer: seq<Pending>)
    requires Continues(pool, taken, bytes, maxTxs, maxBytes, answer) && IsNext(pool, x) && |taken| < maxTxs
    ensures if bytes + |x.tx| > maxBytes then Continues(pool - {x}, taken, bytes, maxTxs, maxBytes, answer)
            else Continues(pool - {x}, taken + [x], bytes + |x.tx|, maxTxs, maxBytes, answer)
  {
    hide Drain, Fill, IsNext;
    DrainStep(pool, x);
    var rest := Drain(pool - {x});
    FillStep(Drain(pool), maxTxs - |taken|, bytes, maxBytes);
    assert Drain(pool)[1..] == rest;
    if bytes + |x.tx| <= maxBytes {
      var more := Fill(rest, maxTxs - |taken| - 1, bytes + |x.tx|, maxBytes);
      assert taken + ([x] + more) == taken + [x] + more;
    }
  }

  /** Emit the earliest head, promote its queue's next, and keep what fits. */
  method Merge(order: map<nat, (Bytes, Bytes)>, sorted: map<Bytes, seq<Slot>>, maxTxs: nat, maxBytes: nat,
               ghost entries: map<nat, Pending>) returns (out: seq<Bytes>)
    requires Ready(entries, sorted, entries.Keys) && entries.Keys == order.Keys
    requires forall a <- order :: entries[a].tx == order[a].1
    ensures Distinct(Those(entries, entries.Keys))
    ensures out == Txs(Peek(Those(entries, entries.Keys), maxTxs, maxBytes))
  {
    hide Ready, Distinct, Those, Peek, Fill, Drain, Heads, IsNext;
    var queues := sorted;
    var heads := CollectHeads(queues);
    var bytes: nat := 0;
    out := [];
    ghost var left, taken: seq<Pending> := entries.Keys, [];
    assert Ready(entries, queues, left) && ByArrival(entries) by { ReadyByArrival(entries, queues, left); }
    ThoseDistinct(entries, left);
    ghost var answer := Peek(Those(entries, left), maxTxs, maxBytes);
    PeekUnfold(Those(entries, left), maxTxs, maxBytes);
    while |out| < maxTxs && heads != {}
      invariant left <= entries.Keys && Ready(entries, queues, left) && heads == Heads(queues)
      invariant out == Txs(taken) && Continues(Those(entries, left), taken, bytes, maxTxs, maxBytes, answer)
      decreases left
    {
      ghost var earliest := EarliestHead(heads);
      var h :| h in heads && (forall g <- heads :: h.0 <= g.0);
      HeadIsNext(entries, queues, left, h);
      HeadSlot(entries, queues, left, h);
      var queue := queues[h.1];
      var arrival := queue[0].1;
      HeadsPopped(queues, h.1);
      Popped(entries, queues, left, h.1);
      heads := heads - {h};
      if |queue| > 1 {
        heads := heads + {(queue[1].1, h.1)};
      }
      queues := queues[h.1 := queue[1..]];
      ghost var x := entries[arrival];
      TakeNext(Those(entries, left), x, taken, bytes, maxTxs, maxBytes, answer);
      ThoseLess(entries, left, arrival);
      left := left - {arrival};
      var tx := order[arrival].1;
      if bytes + |tx| <= maxBytes {
        bytes := bytes + |tx|;
        out := out + [tx];
        taken := taken + [x];
      }
    }
    assert answer == taken by {
      Finished(entries, queues, left, taken, bytes, maxTxs, maxBytes, answer);
    }
  }

  lemma ReadyByArrival(entries: map<nat, Pending>, queues: map<Bytes, seq<Slot>>, left: set<nat>)
    requires Ready(entries, queues, left)
    ensures ByArrival(entries)
  {
  }

  lemma PeekUnfold(pool: set<Pending>, maxTxs: nat, maxBytes: nat)
    requires Distinct(pool)
    ensures Continues(pool, [], 0, maxTxs, maxBytes, Peek(pool, maxTxs, maxBytes))
  {
  }

  lemma HeadSlot(entries: map<nat, Pending>, queues: map<Bytes, seq<Slot>>, left: set<nat>, h: (nat, Bytes))
    requires Ready(entries, queues, left) && h in Heads(queues)
    ensures h.1 in queues && queues[h.1] != [] && queues[h.1][0].1 == h.0
    ensures h.0 in left && h.0 in entries
  {
    var q := queues[h.1];
    assert q[0] in q;
  }

  lemma ThoseLess(entries: map<nat, Pending>, left: set<nat>, a: nat)
    requires ByArrival(entries) && left <= entries.Keys && a in left
    ensures Those(entries, left) - {entries[a]} == Those(entries, left - {a})
  {
  }

  lemma QueuedHasHead(entries: map<nat, Pending>, queues: map<Bytes, seq<Slot>>, left: set<nat>, a: nat)
    requires Ready(entries, queues, left) && a in left
    ensures Heads(queues) != {}
  {
    var k := Key(entries[a]);
    InHeads(queues, (queues[k][0].1, k));
  }

  lemma Finished(entries: map<nat, Pending>, queues: map<Bytes, seq<Slot>>, left: set<nat>, taken: seq<Pending>,
                 bytes: nat, maxTxs: nat, maxBytes: nat, answer: seq<Pending>)
    requires Ready(entries, queues, left) && Continues(Those(entries, left), taken, bytes, maxTxs, maxBytes, answer)
    requires |taken| == maxTxs || Heads(queues) == {}
    ensures answer == taken
  {
    if |taken| < maxTxs {
      if left != {} {
        var a :| a in left;
        QueuedHasHead(entries, queues, left, a);
      }
      assert Those(entries, left) == {};
    }
  }
}
