/** The application's mempool: four mirrored maps and their counters, proved to be one
    list of pending transactions. */
module Mempool {
  import opened Common
  import opened Batch
  import opened Queues

  const MAX_STORE_CODE_TX_BYTES: nat := 8 * 1024 * 1024

  datatype Limits = Limits(maxPending: nat, maxTotalBytes: nat, maxTxBytes: nat, maxPerSender: nat)

  datatype SubmitError = Duplicate | TooLarge | Full | SenderFull

  /** `sha256` of a transaction, left uninterpreted. */
  type TxHasher = Bytes -> Bytes

  // ----- the pool as one list -----

  /** Pending transactions, oldest first, and the next arrival number. */
  datatype Pool = Pool(txs: seq<Pending>, nextSeq: nat)

  function FromSender(p: Pending, sender: Bytes): nat {
    if p.meta.Some? && p.meta.value.sender == sender then 1 else 0
  }

  function Count(txs: seq<Pending>, sender: Bytes): nat {
    if txs == [] then 0 else Count(txs[..|txs| - 1], sender) + FromSender(txs[|txs| - 1], sender)
  }

  function Bytesize(txs: seq<Pending>): nat {
    if txs == [] then 0 else Bytesize(txs[..|txs| - 1]) + |txs[|txs| - 1].tx|
  }

  predicate Has(txs: seq<Pending>, hash: Bytes) {
    exists p <- txs :: p.hash == hash
  }

  function Without(txs: seq<Pending>, hash: Bytes): seq<Pending> {
    if txs == [] then []
    else
      var n := |txs| - 1;
      Without(txs[..n], hash) + (if txs[n].hash == hash then [] else [txs[n]])
  }

  function TxCap(limits: Limits, meta: Option<TxMeta>): nat {
    if meta.Some? && meta.value.storeCode then MAX_STORE_CODE_TX_BYTES else limits.maxTxBytes
  }

  /** The checks of `submit_checked`, in order. */
  function Refusal(limits: Limits, hash: TxHasher, pool: Pool, tx: Bytes, meta: Option<TxMeta>): Option<SubmitError> {
    if |tx| > TxCap(limits, meta) then Some(TooLarge)
    else if Has(pool.txs, hash(tx)) then Some(Duplicate)
    else if meta.Some? && Count(pool.txs, meta.value.sender) >= limits.maxPerSender then Some(SenderFull)
    else if |pool.txs| >= limits.maxPending || AddSatU64(Bytesize(pool.txs), |tx|) > limits.maxTotalBytes then
      Some(Full)
    else None
  }

  function Admitted(hash: TxHasher, pool: Pool, tx: Bytes, meta: Option<TxMeta>): Pool {
    Pool(pool.txs + [Pending(pool.nextSeq, hash(tx), tx, meta)], pool.nextSeq + 1)
  }

  function Submitted(limits: Limits, hash: TxHasher, pool: Pool, tx: Bytes, meta: Option<TxMeta>): Pool {
    if Refusal(limits, hash, pool, tx, meta).None? then Admitted(hash, pool, tx, meta) else pool
  }

  function Removed(pool: Pool, hash: Bytes): Pool {
    pool.(txs := Without(pool.txs, hash))
  }

  // ----- what every pool keeps -----

  ghost predicate WellFormed(hash: TxHasher, pool: Pool) {
    && (forall i, j :: 0 <= i < j < |pool.txs| ==> pool.txs[i].arrival < pool.txs[j].arrival)
    && (forall i, j :: 0 <= i < j < |pool.txs| ==> pool.txs[i].hash != pool.txs[j].hash)
    && (forall p <- pool.txs :: p.arrival < pool.nextSeq && p.hash == hash(p.tx))
  }

  /** All four caps; the byte cap is void at the largest `usize`, where the checked sum
      saturates. */
  ghost predicate WithinCaps(limits: Limits, pool: Pool) {
    && |pool.txs| <= limits.maxPending
    && (limits.maxTotalBytes < U64_MAX ==> Bytesize(pool.txs) <= limits.maxTotalBytes)
    && (forall s :: Count(pool.txs, s) <= limits.maxPerSender)
    && (forall p <- pool.txs :: |p.tx| <= TxCap(limits, p.meta))
  }

  lemma AdmitKeepsForm(hash: TxHasher, pool: Pool, tx: Bytes, meta: Option<TxMeta>)
    requires WellFormed(hash, pool) && !Has(pool.txs, hash(tx))
    ensures WellFormed(hash, Admitted(hash, pool, tx, meta))
  {
    assert forall i :: 0 <= i < |pool.txs| ==> pool.txs[i] in pool.txs;
  }

  lemma {:induction false} WithoutKeeps(txs: seq<Pending>, hash: Bytes, p: Pending)
    ensures p in Without(txs, hash) <==> p in txs && p.hash != hash
    decreases |txs|
  {
    if txs != [] {
      var n := |txs| - 1;
      WithoutKeeps(txs[..n], hash, p);
      assert txs == txs[..n] + [txs[n]];
    }
  }

  lemma {:induction false} WithoutKeepsForm(hash: TxHasher, pool: Pool, h: Bytes)
    requires WellFormed(hash, pool)
    ensures WellFormed(hash, Removed(pool, h))
    decreases |pool.txs|
  {
    hide Without;
    var n := |pool.txs|;
    if n == 0 {
      WithoutAbsent(pool.txs, h);
    } else {
      var before, last := pool.(txs := pool.txs[..n - 1]), pool.txs[n - 1];
      assert pool.txs == before.txs + [last];
      WithoutKeepsForm(hash, before, h);
      WithoutStep(before.txs, last, h);
      var kept := Without(before.txs, h);
      forall i | 0 <= i < |kept|
        ensures kept[i].arrival < last.arrival && kept[i].hash != last.hash
      {
        WithoutKeeps(before.txs, h, kept[i]);
      }
    }
  }

  /** Removing what is not pending changes nothing. */
  lemma {:induction false} WithoutAbsent(txs: seq<Pending>, hash: Bytes)
    requires !Has(txs, hash)
    ensures Without(txs, hash) == txs
    decreases |txs|
  {
    if txs != [] {
      var n := |txs| - 1;
      assert txs == txs[..n] + [txs[n]] && txs[n] in txs;
      WithoutAbsent(txs[..n], hash);
    }
  }

  ghost predicate HashesApart(txs: seq<Pending>) {
    forall i, j :: 0 <= i < j < |txs| ==> txs[i].hash != txs[j].hash
  }

  /** Removing `p` lowers each total by its share. */
  lemma {:induction false} WithoutTotals(txs: seq<Pending>, p: Pending, sender: Bytes)
    requires HashesApart(txs) && p in txs
    ensures var rest := Without(txs, p.hash);
            && |txs| == |rest| + 1
            && Bytesize(txs) == Bytesize(rest) + |p.tx|
            && Count(txs, sender) == Count(rest, sender) + FromSender(p, sender)
    decreases |txs|
  {
    hide Bytesize, Count, Without;
    var n := |txs| - 1;
    var before, last := txs[..n], txs[n];
    assert txs == before + [last];
    AdmitTotals(before, last, sender);
    WithoutStep(before, last, p.hash);
    if p == last {
      assert !Has(before, p.hash);
      WithoutAbsent(before, p.hash);
      assert Without(txs, p.hash) == before;
    } else {
      assert p in before;
      assert last.hash != p.hash;
      WithoutTotals(before, p, sender);
      AdmitTotals(Without(before, p.hash), last, sender);
    }
  }

  lemma WithoutStep(txs: seq<Pending>, p: Pending, hash: Bytes)
    ensures Without(txs + [p], hash) == Without(txs, hash) + (if p.hash == hash then [] else [p])
  {
    assert (txs + [p])[..|txs|] == txs;
  }

  lemma AdmitTotals(txs: seq<Pending>, p: Pending, sender: Bytes)
    ensures Bytesize(txs + [p]) == Bytesize(txs) + |p.tx|
    ensures Count(txs + [p], sender) == Count(txs, sender) + FromSender(p, sender)
  {
    assert (txs + [p])[..|txs|] == txs;
  }

  lemma SubmitKeepsCaps(limits: Limits, hash: TxHasher, pool: Pool, tx: Bytes, meta: Option<TxMeta>)
    requires WithinCaps(limits, pool)
    ensures WithinCaps(limits, Submitted(limits, hash, pool, tx, meta))
  {
    hide Count, Bytesize;
    if Refusal(limits, hash, pool, tx, meta).None? {
      var p := Pending(pool.nextSeq, hash(tx), tx, meta);
      var after := Admitted(hash, pool, tx, meta);
      AdmitTotals(pool.txs, p, []);
      forall s
        ensures Count(after.txs, s) <= limits.maxPerSender
      {
        AdmitTotals(pool.txs, p, s);
      }
    }
  }

  /** A submission is accepted iff the pool with it still has distinct hashes and keeps
      every cap. */
  lemma AcceptedIffFits(limits: Limits, hash: TxHasher, pool: Pool, tx: Bytes, meta: Option<TxMeta>)
    requires WellFormed(hash, pool) && WithinCaps(limits, pool)
    ensures Refusal(limits, hash, pool, tx, meta).None? <==>
            WellFormed(hash, Admitted(hash, pool, tx, meta)) && WithinCaps(limits, Admitted(hash, pool, tx, meta))
  {
    hide Count, Bytesize;
    var p := Pending(pool.nextSeq, hash(tx), tx, meta);
    var after := Admitted(hash, pool, tx, meta);
    SubmitKeepsCaps(limits, hash, pool, tx, meta);
    AdmitTotals(pool.txs, p, if meta.Some? then meta.value.sender else []);
    if !Has(pool.txs, hash(tx)) {
      AdmitKeepsForm(hash, pool, tx, meta);
    } else {
      var i :| 0 <= i < |pool.txs| && pool.txs[i].hash == hash(tx);
      assert after.txs[i].hash == after.txs[|pool.txs|].hash;
    }
    assert p in after.txs;
  }

  /** Why a submission is refused, exactly, in the order in which the source looks. */
  lemma RefusedIff(limits: Limits, hash: TxHasher, pool: Pool, tx: Bytes, meta: Option<TxMeta>)
    ensures var r := Refusal(limits, hash, pool, tx, meta);
            var large := |tx| > if meta.Some? && meta.value.storeCode then 8_388_608 else limits.maxTxBytes;
            var known := exists p <- pool.txs :: p.hash == hash(tx);
            var senderFull := meta.Some? && |Sent(pool.txs, meta.value.sender)| >= limits.maxPerSender;
            var full := |pool.txs| >= limits.maxPending || AddSatU64(Bytesize(pool.txs), |tx|) > limits.maxTotalBytes;
            && (r == Some(TooLarge) <==> large)
            && (r == Some(Duplicate) <==> !large && known)
            && (r == Some(SenderFull) <==> !large && !known && senderFull)
            && (r == Some(Full) <==> !large && !known && !senderFull && full)
  {
    hide Count, Bytesize;
    if meta.Some? {
      CountIsSent(pool.txs, meta.value.sender);
    }
  }

  /** Where in the pool the sender's transactions stand. */
  ghost function Sent(txs: seq<Pending>, sender: Bytes): set<nat> {
    set i | 0 <= i < |txs| && txs[i].meta.Some? && txs[i].meta.value.sender == sender
  }

  lemma {:induction false} CountIsSent(txs: seq<Pending>, sender: Bytes)
    ensures Count(txs, sender) == |Sent(txs, sender)|
    decreases |txs|
  {
    if txs == [] {
      assert Sent(txs, sender) == {};
    } else {
      var n := |txs| - 1;
      CountIsSent(txs[..n], sender);
      assert Sent(txs, sender) == Sent(txs[..n], sender) + if FromSender(txs[n], sender) == 1 then {n} else {};
    }
  }

  lemma RemoveKeepsCaps(limits: Limits, hash: TxHasher, pool: Pool, h: Bytes)
    requires WellFormed(hash, pool) && WithinCaps(limits, pool)
    ensures WithinCaps(limits, Removed(pool, h))
  {
    hide Count, Bytesize, Without;
    if Has(pool.txs, h) {
      var p :| p in pool.txs && p.hash == h;
      var after := Removed(pool, h);
      WithoutTotals(pool.txs, p, []);
      forall s
        ensures Count(after.txs, s) <= limits.maxPerSender
      {
        WithoutTotals(pool.txs, p, s);
      }
      forall q <- after.txs
        ensures |q.tx| <= TxCap(limits, q.meta)
      {
        WithoutKeeps(pool.txs, h, q);
      }
    } else {
      WithoutAbsent(pool.txs, h);
    }
  }

  // ----- runs -----

  datatype Event = Submitting(tx: Bytes, meta: Option<TxMeta>) | Removing(hash: Bytes)

  const EMPTY: Pool := Pool([], 0)

  function Next(limits: Limits, hash: TxHasher, pool: Pool, e: Event): Pool {
    match e
    case Submitting(tx, meta) => Submitted(limits, hash, pool, tx, meta)
    case Removing(h) => Removed(pool, h)
  }

  function After(limits: Limits, hash: TxHasher, events: seq<Event>): Pool {
    if events == [] then EMPTY
    else Next(limits, hash, After(limits, hash, events[..|events| - 1]), events[|events| - 1])
  }

  /** In every reachable pool arrivals ascend, hashes are distinct and all caps hold. */
  lemma {:induction false} RunKeepsCaps(limits: Limits, hash: TxHasher, events: seq<Event>)
    ensures WellFormed(hash, After(limits, hash, events)) && WithinCaps(limits, After(limits, hash, events))
    decreases |events|
  {
    if events != [] {
      hide WellFormed, WithinCaps, Refusal;
      var n := |events| - 1;
      RunKeepsCaps(limits, hash, events[..n]);
      StepKeepsCaps(limits, hash, After(limits, hash, events[..n]), events[n]);
    } else {
      assert forall s :: Count([], s) == 0;
    }
  }

  lemma StepKeepsCaps(limits: Limits, hash: TxHasher, pool: Pool, e: Event)
    requires WellFormed(hash, pool) && WithinCaps(limits, pool)
    ensures WellFormed(hash, Next(limits, hash, pool, e)) && WithinCaps(limits, Next(limits, hash, pool, e))
  {
    hide WellFormed, WithinCaps;
    match e
    case Submitting(tx, meta) =>
      SubmitKeepsCaps(limits, hash, pool, tx, meta);
      if Refusal(limits, hash, pool, tx, meta).None? {
        AdmitKeepsForm(hash, pool, tx, meta);
      }
    case Removing(h) =>
      RemoveKeepsCaps(limits, hash, pool, h);
      WithoutKeepsForm(hash, pool, h);
  }

  /** The submission at `i` was accepted, as `p`. */
  ghost predicate AcceptedAt(limits: Limits, hash: TxHasher, events: seq<Event>, i: nat, p: Pending) {
    && i < |events| && events[i].Submitting?
    && var pool := After(limits, hash, events[..i]);
       && Refusal(limits, hash, pool, events[i].tx, events[i].meta).None?
       && p == Pending(pool.nextSeq, hash(events[i].tx), events[i].tx, events[i].meta)
  }

  ghost predicate Live(limits: Limits, hash: TxHasher, events: seq<Event>, p: Pending) {
    exists i :: AcceptedAt(limits, hash, events, i, p) && NotRemovedSince(events, i, p.hash)
  }

  ghost predicate NotRemovedSince(events: seq<Event>, i: nat, hash: Bytes) {
    forall j :: i < j < |events| ==> events[j] != Removing(hash)
  }

  lemma LiveStep(limits: Limits, hash: TxHasher, events: seq<Event>, p: Pending)
    requires events != []
    ensures var n := |events| - 1;
            Live(limits, hash, events, p) <==>
              AcceptedAt(limits, hash, events, n, p) ||
              (Live(limits, hash, events[..n], p) && events[n] != Removing(p.hash))
  {
    hide After, Refusal;
    var n := |events| - 1;
    if Live(limits, hash, events, p) && !AcceptedAt(limits, hash, events, n, p) {
      var i: nat :| AcceptedAt(limits, hash, events, i, p) && NotRemovedSince(events, i, p.hash);
      assert events[..n][..i] == events[..i];
      assert AcceptedAt(limits, hash, events[..n], i, p) && NotRemovedSince(events[..n], i, p.hash);
    }
    if Live(limits, hash, events[..n], p) && events[n] != Removing(p.hash) {
      var i: nat :| AcceptedAt(limits, hash, events[..n], i, p) && NotRemovedSince(events[..n], i, p.hash);
      assert events[..n][..i] == events[..i];
      assert AcceptedAt(limits, hash, events, i, p) && NotRemovedSince(events, i, p.hash);
    }
    if AcceptedAt(limits, hash, events, n, p) {
      assert NotRemovedSince(events, n, p.hash);
    }
  }

  /** Conservation: pending is exactly what was accepted and not removed since. */
  lemma {:induction false} PendingIsAcceptedNotRemoved(limits: Limits, hash: TxHasher, events: seq<Event>, p: Pending)
    ensures p in After(limits, hash, events).txs <==> Live(limits, hash, events, p)
    decreases |events|
  {
    if events != [] {
      hide Live, Refusal;
      var n := |events| - 1;
      var pool := After(limits, hash, events[..n]);
      PendingIsAcceptedNotRemoved(limits, hash, events[..n], p);
      LiveStep(limits, hash, events, p);
      match events[n]
      case Submitting(tx, meta) =>
      case Removing(h) => WithoutKeeps(pool.txs, h, p);
    }
  }

  /** How many removals of a run found something. */
  ghost function Removals(limits: Limits, hash: TxHasher, events: seq<Event>): nat {
    if events == [] then 0
    else
      var n := |events| - 1;
      Removals(limits, hash, events[..n]) +
      (if events[n].Removing? && Has(After(limits, hash, events[..n]).txs, events[n].hash) then 1 else 0)
  }

  /** The pool holds as many as were accepted less as many as were removed. */
  lemma {:induction false} SizeIsAcceptedLessRemoved(limits: Limits, hash: TxHasher, events: seq<Event>)
    ensures var pool := After(limits, hash, events);
            |pool.txs| + Removals(limits, hash, events) == pool.nextSeq
    decreases |events|
  {
    if events != [] {
      hide Refusal, Without;
      var n := |events| - 1;
      var pool := After(limits, hash, events[..n]);
      SizeIsAcceptedLessRemoved(limits, hash, events[..n]);
      match events[n]
      case Submitting(tx, meta) =>
      case Removing(h) =>
        if Has(pool.txs, h) {
          RunKeepsCaps(limits, hash, events[..n]);
          var p :| p in pool.txs && p.hash == h;
          WithoutTotals(pool.txs, p, []);
        } else {
          WithoutAbsent(pool.txs, h);
        }
    }
  }

  // ----- the mirrored maps -----

  /** `order` is the list, by arrival. */
  ghost predicate OrderOk(order: map<nat, (Bytes, Bytes)>, txs: seq<Pending>) {
    && |order| == |txs|
    && (forall p <- txs :: p.arrival in order && order[p.arrival] == (p.hash, p.tx))
    && (forall a <- order :: Arrived(txs, a))
  }

  predicate Arrived(txs: seq<Pending>, arrival: nat) {
    exists p <- txs :: p.arrival == arrival
  }

  /** `index` is the list, by hash. */
  ghost predicate IndexOk(index: map<Bytes, nat>, txs: seq<Pending>) {
    && (forall p <- txs :: p.hash in index && index[p.hash] == p.arrival)
    && (forall h <- index :: Has(txs, h))
  }

  ghost predicate MetaOk(meta: map<Bytes, TxMeta>, txs: seq<Pending>) {
    && (forall p <- txs :: p.meta == MetaAt(meta, p.hash))
    && (forall h <- meta :: Has(txs, h))
  }

  /** True per-sender counts, and no entry for a sender with none. */
  ghost predicate CountsOk(counts: map<Bytes, nat>, txs: seq<Pending>) {
    forall s :: CountAt(counts, s) == Count(txs, s) && (s in counts ==> counts[s] > 0)
  }

  function MetaAt(meta: map<Bytes, TxMeta>, hash: Bytes): Option<TxMeta> {
    if hash in meta then Some(meta[hash]) else None
  }

  function CountAt(counts: map<Bytes, nat>, sender: Bytes): nat {
    if sender in counts then counts[sender] else 0
  }

  ghost predicate Mirrors(order: map<nat, (Bytes, Bytes)>, index: map<Bytes, nat>, meta: map<Bytes, TxMeta>,
                          counts: map<Bytes, nat>, totalBytes: nat, txs: seq<Pending>)
  {
    && OrderOk(order, txs) && IndexOk(index, txs) && MetaOk(meta, txs) && CountsOk(counts, txs)
    && totalBytes == Bytesize(txs)
  }

  /** `index` and `order` are inverse. */
  lemma IndexInvertsOrder(order: map<nat, (Bytes, Bytes)>, index: map<Bytes, nat>, txs: seq<Pending>)
    requires OrderOk(order, txs) && IndexOk(index, txs)
    ensures forall h <- index :: index[h] in order && order[index[h]].0 == h
    ensures forall a <- order :: order[a].0 in index && index[order[a].0] == a
  {
    forall h <- index
      ensures index[h] in order && order[index[h]].0 == h
    {
      var p :| p in txs && p.hash == h;
    }
    forall a <- order
      ensures order[a].0 in index && index[order[a].0] == a
    {
      var p :| p in txs && p.arrival == a;
    }
  }

  ghost function AsSet(txs: seq<Pending>): set<Pending> {
    set p | p in txs
  }

  lemma EntriesArePending(order: map<nat, (Bytes, Bytes)>, meta: map<Bytes, TxMeta>, txs: seq<Pending>)
    requires OrderOk(order, txs) && MetaOk(meta, txs)
    ensures var entries := Entries(order, meta);
            entries.Keys == order.Keys && Those(entries, order.Keys) == AsSet(txs)
  {
    var entries := Entries(order, meta);
    forall p <- txs
      ensures p in Those(entries, order.Keys)
    {
      assert entries[p.arrival] == p;
    }
    forall a <- order
      ensures entries[a] in txs
    {
      var p :| p in txs && p.arrival == a;
      assert entries[a] == p;
    }
  }

  lemma AdmitOrder(order: map<nat, (Bytes, Bytes)>, txs: seq<Pending>, p: Pending)
    requires OrderOk(order, txs) && (forall q <- txs :: q.arrival < p.arrival)
    ensures OrderOk(order[p.arrival := (p.hash, p.tx)], txs + [p])
  {
    assert p.arrival !in order;
    var after := order[p.arrival := (p.hash, p.tx)];
    forall a <- after
      ensures Arrived(txs + [p], a)
    {
      if a == p.arrival {
        assert p in txs + [p];
      } else {
        var q :| q in txs && q.arrival == a;
        assert q in txs + [p];
      }
    }
  }

  lemma HasAppend(txs: seq<Pending>, p: Pending, h: Bytes)
    ensures Has(txs + [p], h) <==> Has(txs, h) || h == p.hash
  {
    if Has(txs, h) {
      var q :| q in txs && q.hash == h;
      assert q in txs + [p];
    }
    assert p in txs + [p];
  }

  lemma AdmitIndex(index: map<Bytes, nat>, txs: seq<Pending>, p: Pending)
    requires IndexOk(index, txs) && p.hash !in index
    ensures IndexOk(index[p.hash := p.arrival], txs + [p])
  {
    forall h | h in index[p.hash := p.arrival]
      ensures Has(txs + [p], h)
    {
      HasAppend(txs, p, h);
    }
  }

  lemma AdmitMeta(meta: map<Bytes, TxMeta>, txs: seq<Pending>, p: Pending)
    requires MetaOk(meta, txs) && !Has(txs, p.hash)
    ensures MetaOk(if p.meta.Some? then meta[p.hash := p.meta.value] else meta, txs + [p])
  {
    var after := if p.meta.Some? then meta[p.hash := p.meta.value] else meta;
    forall h <- after
      ensures Has(txs + [p], h)
    {
      HasAppend(txs, p, h);
    }
  }

  lemma AdmitCounts(counts: map<Bytes, nat>, txs: seq<Pending>, p: Pending)
    requires CountsOk(counts, txs)
    ensures CountsOk(
              if p.meta.Some? then counts[p.meta.value.sender := CountAt(counts, p.meta.value.sender) + 1] else counts,
              txs + [p])
  {
    hide Count;
    forall s
      ensures Count(txs + [p], s) == Count(txs, s) + FromSender(p, s)
    {
      AdmitTotals(txs, p, s);
    }
  }

  lemma RemoveOrder(order: map<nat, (Bytes, Bytes)>, txs: seq<Pending>, p: Pending)
    requires OrderOk(order, txs) && p in txs && HashesApart(txs)
    requires forall q <- txs :: q.arrival == p.arrival ==> q == p
    ensures OrderOk(order - {p.arrival}, Without(txs, p.hash))
  {
    hide Without, HashesApart, Arrived;
    var rest, after := Without(txs, p.hash), order - {p.arrival};
    WithoutTotals(txs, p, []);
    assert order == after[p.arrival := order[p.arrival]];
    forall q <- rest
      ensures q.arrival in after && after[q.arrival] == (q.hash, q.tx)
    {
      WithoutKeeps(txs, p.hash, q);
    }
    forall a <- after
      ensures Arrived(rest, a)
    {
      ArrivedStays(txs, p, a);
    }
  }

  lemma ArrivedStays(txs: seq<Pending>, p: Pending, a: nat)
    requires HashesApart(txs) && p in txs && Arrived(txs, a) && a != p.arrival
    ensures Arrived(Without(txs, p.hash), a)
  {
    hide Without;
    var q :| q in txs && q.arrival == a;
    if q.hash == p.hash {
      HashNames(txs, p, q);
    }
    WithoutKeeps(txs, p.hash, q);
  }

  lemma HashNames(txs: seq<Pending>, p: Pending, q: Pending)
    requires HashesApart(txs) && p in txs && q in txs && p.hash == q.hash
    ensures p == q
  {
  }

  lemma RemoveIndex(index: map<Bytes, nat>, meta: map<Bytes, TxMeta>, txs: seq<Pending>, hash: Bytes)
    requires IndexOk(index, txs) && MetaOk(meta, txs)
    ensures IndexOk(index - {hash}, Without(txs, hash)) && MetaOk(meta - {hash}, Without(txs, hash))
  {
    hide Without;
    var rest := Without(txs, hash);
    forall q
      ensures q in rest <==> q in txs && q.hash != hash
    {
      WithoutKeeps(txs, hash, q);
    }
    forall h | Has(txs, h) && h != hash
      ensures Has(rest, h)
    {
      var q :| q in txs && q.hash == h;
      assert q in rest;
    }
  }

  /** The pending transaction behind an indexed hash, in all three maps. */
  lemma EntryOf(order: map<nat, (Bytes, Bytes)>, index: map<Bytes, nat>, meta: map<Bytes, TxMeta>,
                hasher: TxHasher, pool: Pool, hash: Bytes) returns (p: Pending)
    requires OrderOk(order, pool.txs) && IndexOk(index, pool.txs) && MetaOk(meta, pool.txs)
    requires WellFormed(hasher, pool) && hash in index
    ensures p in pool.txs && p.hash == hash && HashesApart(pool.txs)
    ensures index[hash] == p.arrival && p.arrival in order && order[p.arrival] == (hash, p.tx)
    ensures MetaAt(meta, hash) == p.meta
    ensures forall q <- pool.txs :: q.arrival == p.arrival ==> q == p
  {
    p :| p in pool.txs && p.hash == hash;
  }

  /** `remove`'s update of the counts. */
  function Decremented(counts: map<Bytes, nat>, sender: Bytes): map<Bytes, nat> {
    if sender !in counts then counts
    else if SubSat(counts[sender], 1) == 0 then counts - {sender}
    else counts[sender := SubSat(counts[sender], 1)]
  }

  lemma RemoveCounts(counts: map<Bytes, nat>, txs: seq<Pending>, p: Pending)
    requires CountsOk(counts, txs) && p in txs && HashesApart(txs)
    ensures CountsOk(if p.meta.Some? then Decremented(counts, p.meta.value.sender) else counts, Without(txs, p.hash))
  {
    hide Count, Without;
    forall s
      ensures Count(txs, s) == Count(Without(txs, p.hash), s) + FromSender(p, s)
    {
      WithoutTotals(txs, p, s);
    }
  }

  // ----- the pool as the source updates it -----

  class Mempool {
    const limits: Limits
    const hasher: TxHasher
    var order: map<nat, (Bytes, Bytes)>
    var index: map<Bytes, nat>
    var meta: map<Bytes, TxMeta>
    var senderCounts: map<Bytes, nat>
    var nextSeq: nat
    var totalBytes: nat
    ghost var pool: Pool

    ghost predicate Valid()
      reads this
    {
      && WellFormed(hasher, pool) && WithinCaps(limits, pool)
      && Mirrors(order, index, meta, senderCounts, totalBytes, pool.txs)
      && nextSeq == pool.nextSeq
    }

    constructor (limits: Limits, hasher: TxHasher)
      ensures Valid() && pool == EMPTY && this.limits == limits && this.hasher == hasher
    {
      this.limits := limits;
      this.hasher := hasher;
      order, index, meta, senderCounts := map[], map[], map[], map[];
      nextSeq, totalBytes, pool := 0, 0, EMPTY;
    }

    method SubmitChecked(tx: Bytes, m: Option<TxMeta>) returns (r: Result<Bytes, SubmitError>)
      requires Valid()
      modifies this
      ensures Valid() && pool == Submitted(limits, hasher, old(pool), tx, m)
      ensures r == match Refusal(limits, hasher, old(pool), tx, m)
                   case Some(e) => Err(e)
                   case None => Ok(hasher(tx))
    {
      hide WellFormed, WithinCaps, Count, Bytesize;
      SubmitKeepsCaps(limits, hasher, pool, tx, m);
      var txCap := if m.Some? && m.value.storeCode then MAX_STORE_CODE_TX_BYTES else limits.maxTxBytes;
      if |tx| > txCap {
        return Err(TooLarge);
      }
      var hash := hasher(tx);
      assert hash in index <==> Has(pool.txs, hash);
      if hash in index {
        return Err(Duplicate);
      }
      if m.Some? && CountAt(senderCounts, m.value.sender) >= limits.maxPerSender {
        return Err(SenderFull);
      }
      if |order| >= limits.maxPending || AddSatU64(totalBytes, |tx|) > limits.maxTotalBytes {
        return Err(Full);
      }
      Enter(hash, tx, m);
      return Ok(hash);
    }

    /** The updates of an accepted submission. */
    method Enter(hash: Bytes, tx: Bytes, m: Option<TxMeta>)
      requires Valid() && hash == hasher(tx) && !Has(pool.txs, hash)
      requires WithinCaps(limits, Admitted(hasher, pool, tx, m))
      modifies this
      ensures Valid() && pool == Admitted(hasher, old(pool), tx, m)
    {
      hide WithinCaps, Count, Bytesize, OrderOk, MetaOk, CountsOk;
      ghost var p := Pending(nextSeq, hash, tx, m);
      AdmitOrder(order, pool.txs, p);
      AdmitIndex(index, pool.txs, p);
      AdmitMeta(meta, pool.txs, p);
      AdmitCounts(senderCounts, pool.txs, p);
      AdmitTotals(pool.txs, p, []);
      AdmitKeepsForm(hasher, pool, tx, m);
      hide WellFormed, IndexOk;
      pool := Admitted(hasher, pool, tx, m);
      totalBytes := totalBytes + |tx|;
      index := index[hash := nextSeq];
      order := order[nextSeq := (hash, tx)];
      nextSeq := nextSeq + 1;
      if m.Some? {
        senderCounts := senderCounts[m.value.sender := CountAt(senderCounts, m.value.sender) + 1];
        meta := meta[hash := m.value];
      }
    }

    method Remove(hash: Bytes) returns (present: bool)
      requires Valid()
      modifies this
      ensures Valid() && pool == Removed(old(pool), hash) && present == Has(old(pool).txs, hash)
    {
      hide WithinCaps, Count, Bytesize, Without, CountsOk;
      RemoveKeepsCaps(limits, hasher, pool, hash);
      WithoutKeepsForm(hasher, pool, hash);
      if hash !in index {
        assert !Has(pool.txs, hash);
        WithoutAbsent(pool.txs, hash);
        return false;
      }
      Leave(hash);
      return true;
    }

    /** The updates of a removal that finds its transaction. */
    method Leave(hash: Bytes)
      requires Valid() && hash in index
      requires WellFormed(hasher, Removed(pool, hash)) && WithinCaps(limits, Removed(pool, hash))
      modifies this
      ensures Valid() && pool == Removed(old(pool), hash)
    {
      hide WithinCaps, WellFormed, Count, Bytesize, Without, OrderOk, IndexOk, MetaOk, CountsOk, HashesApart;
      ghost var p := EntryOf(order, index, meta, hasher, pool, hash);
      RemoveOrder(order, pool.txs, p);
      RemoveIndex(index, meta, pool.txs, hash);
      RemoveCounts(senderCounts, pool.txs, p);
      WithoutTotals(pool.txs, p, []);
      var arrival := index[hash];
      pool := Removed(pool, hash);
      index := index - {hash};
      totalBytes := totalBytes - |order[arrival].1|;
      order := order - {arrival};
      if hash in meta {
        senderCounts := Decremented(senderCounts, meta[hash].sender);
      }
      meta := meta - {hash};
    }

    /** Up to `maxTxs` transactions of at most `maxBytes` together; nothing changes. */
    method PeekBatch(maxTxs: nat, maxBytes: nat) returns (out: seq<Bytes>)
      requires Valid()
      ensures Distinct(AsSet(pool.txs)) && out == Txs(Peek(AsSet(pool.txs), maxTxs, maxBytes))
    {
      hide WellFormed, WithinCaps, OrderOk, IndexOk, MetaOk, CountsOk, Listed, InOrder, NoRepeats;
      EntriesArePending(order, meta, pool.txs);
      ghost var entries := Entries(order, meta);
      var queues := Build(order, meta);
      var sorted := SortAll(queues, entries, order.Keys);
      assert Ready(entries, sorted, entries.Keys);
      out := Merge(order, sorted, maxTxs, maxBytes, entries);
    }

    /** `remove_committed`: how many of `hashes` were pending. */
    method RemoveCommitted(hashes: seq<Bytes>) returns (n: nat)
      requires Valid()
      modifies this
      ensures Valid() && pool == RemovedAll(old(pool), hashes)
      ensures |pool.txs| + n == |old(pool).txs|
    {
      hide Mirrors, WithinCaps, WellFormed, Without;
      n := 0;
      assert hashes[..0] == [];
      for i := 0 to |hashes|
        invariant Valid() && pool == RemovedAll(old(pool), hashes[..i])
        invariant |pool.txs| + n == |old(pool).txs|
      {
        ghost var before := pool;
        assert hashes[..i + 1][..i] == hashes[..i];
        var present := Remove(hashes[i]);
        RemoveCount(hasher, before, hashes[i]);
        if present {
          n := n + 1;
        }
      }
      assert hashes[..|hashes|] == hashes;
    }
  }

  function RemovedAll(pool: Pool, hashes: seq<Bytes>): Pool {
    if hashes == [] then pool
    else Removed(RemovedAll(pool, hashes[..|hashes| - 1]), hashes[|hashes| - 1])
  }

  lemma RemoveCount(hash: TxHasher, pool: Pool, h: Bytes)
    requires WellFormed(hash, pool)
    ensures |Removed(pool, h).txs| + (if Has(pool.txs, h) then 1 else 0) == |pool.txs|
  {
    hide Without;
    if Has(pool.txs, h) {
      var p :| p in pool.txs && p.hash == h;
      WithoutTotals(pool.txs, p, []);
    } else {
      WithoutAbsent(pool.txs, h);
    }
  }
}
