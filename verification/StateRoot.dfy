/** The app's state root: a full scan of committed state, and the incremental
    form that merges one block's writes into a warm leaf index. */
module StateRoot {
  import opened Common
  import opened Merkle
  import opened Ordering

  type Store = map<Bytes, Bytes>

  datatype Entry = Entry(key: Bytes, value: Bytes)

  /** A slot of the warm index: a key and the hash of its leaf. */
  datatype Slot = Slot(key: Bytes, leaf: Hash)

  /** The final operation a block performed on a key; `None` deletes it. */
  datatype Op = Op(key: Bytes, value: Option<Bytes>)

  /** Keys starting with `_` are node-local and never enter the root. */
  predicate IsSidecar(key: Bytes) {
    key != [] && key[0] == 95
  }

  // ----- the full scan -----

  predicate Before(a: Entry, b: Entry) {
    Less(a.key, b.key)
  }

  /** `scan` is the ascending list of consensus entries that a scan of `store` visits. */
  ghost predicate IsScan(store: Store, scan: seq<Entry>) {
    && Sorted(Before, scan)
    && (forall e <- scan :: e.key in store && store[e.key] == e.value && !IsSidecar(e.key))
    && (forall k <- store :: !IsSidecar(k) ==> Entry(k, store[k]) in scan)
  }

  function Data(scan: seq<Entry>): seq<Bytes> {
    seq(|scan|, i requires 0 <= i < |scan| => scan[i].key + scan[i].value)
  }

  /** `state_root_over`: the root of the scanned entries. */
  function ScanRoot(H: Hasher, scan: seq<Entry>): Hash {
    RootOf(H, Leaves(H, Data(scan)))
  }

  function IndexOf(H: Hasher, scan: seq<Entry>): seq<Slot> {
    seq(|scan|, i requires 0 <= i < |scan| => Slot(scan[i].key, LeafHash(H, scan[i].key + scan[i].value)))
  }

  /** The root commits to the consensus entries alone: stores that agree on every key that
      does not start with an underscore have one scan, and so one root. */
  lemma SidecarsDoNotCount(a: Store, b: Store, scanA: seq<Entry>, scanB: seq<Entry>)
    requires IsScan(a, scanA) && IsScan(b, scanB)
    requires forall k: Bytes :: k == [] || k[0] != '_' as byte ==> (k in a <==> k in b) && (k in a ==> a[k] == b[k])
    ensures scanA == scanB
  {
    forall x, y | Before(x, y)
      ensures !Before(y, x)
    {
      LessAsymmetric(x.key, y.key);
    }
    SortedUnique(Before, scanA, scanB);
  }

  /** Every store has one scan, and only one. */
  lemma ScanExists(store: Store) returns (scan: seq<Entry>)
    ensures IsScan(store, scan) && forall other :: IsScan(store, other) ==> other == scan
  {
    var consensus := set k | k in store && !IsSidecar(k);
    var keys := ListExists(consensus);
    assert forall i :: 0 <= i < |keys| ==> keys[i] in consensus;
    scan := seq(|keys|, i requires 0 <= i < |keys| => Entry(keys[i], store[keys[i]]));
    forall k | k in consensus
      ensures Entry(k, store[k]) in scan
    {
      var i :| 0 <= i < |keys| && keys[i] == k;
      assert scan[i] == Entry(k, store[k]);
    }
    forall other | IsScan(store, other)
      ensures other == scan
    {
      SidecarsDoNotCount(store, store, other, scan);
    }
  }

  /** And it commits to all of them: scans with one root have the same entries' bytes, or a
      collision is shown. */
  function SameStateRoot(H: Hasher, scanA: seq<Entry>, scanB: seq<Entry>): (c: Option<Collision>)
    requires scanA != [] && scanB != [] && ScanRoot(H, scanA) == ScanRoot(H, scanB)
    ensures c.None? ==>
            |scanA| == |scanB| &&
            forall i :: 0 <= i < |scanA| ==> scanA[i].key + scanA[i].value == scanB[i].key + scanB[i].value
    ensures c.Some? ==> Breaks(H, c.value)
  {
    SameDataSameBytes(scanA, scanB);
    Compare(H, Data(scanA), Data(scanB))
  }

  lemma SameDataSameBytes(a: seq<Entry>, b: seq<Entry>)
    ensures Data(a) == Data(b) ==>
            |a| == |b| && forall i :: 0 <= i < |a| ==> a[i].key + a[i].value == b[i].key + b[i].value
  {
    if Data(a) == Data(b) {
      assert |Data(a)| == |a| && |Data(b)| == |b|;
      forall i | 0 <= i < |a|
        ensures a[i].key + a[i].value == b[i].key + b[i].value
      {
        assert Data(a)[i] == Data(b)[i];
      }
    }
  }

  // ----- writing through the tracker -----

  function Apply(store: Store, writes: seq<Op>): Store {
    if writes == [] then store
    else
      var before := Apply(store, writes[..|writes| - 1]);
      var w := writes[|writes| - 1];
      if w.value.Some? then before[w.key := w.value.value] else before - {w.key}
  }

  /** `TrackingWriter.dirty`: the last operation on every consensus key. */
  function Dirty(writes: seq<Op>): map<Bytes, Option<Bytes>> {
    if writes == [] then map[]
    else
      var before := Dirty(writes[..|writes| - 1]);
      var w := writes[|writes| - 1];
      if IsSidecar(w.key) then before else before[w.key := w.value]
  }

  function Lookup(store: Store, k: Bytes): Option<Bytes> {
    if k in store then Some(store[k]) else None
  }

  /** Reading the written store through its dirty set. */
  lemma {:induction false} ApplyThroughDirty(store: Store, writes: seq<Op>, k: Bytes)
    requires !IsSidecar(k)
    ensures Lookup(Apply(store, writes), k) ==
            if k in Dirty(writes) then Dirty(writes)[k] else Lookup(store, k)
    decreases |writes|
  {
    if writes != [] {
      ApplyThroughDirty(store, writes[..|writes| - 1], k);
    }
  }

  predicate OpBefore(a: Op, b: Op) {
    Less(a.key, b.key)
  }

  /** `pending` lists the dirty map in ascending key order. */
  ghost predicate IsPending(dirty: map<Bytes, Option<Bytes>>, pending: seq<Op>) {
    && Sorted(OpBefore, pending)
    && (forall o <- pending :: o.key in dirty && dirty[o.key] == o.value)
    && (forall k <- dirty :: Op(k, dirty[k]) in pending)
  }

  /** The final operations of a block can be listed in order. */
  lemma PendingExists(dirty: map<Bytes, Option<Bytes>>) returns (pending: seq<Op>)
    ensures IsPending(dirty, pending)
  {
    var keys := ListExists(dirty.Keys);
    assert forall i :: 0 <= i < |keys| ==> keys[i] in dirty.Keys;
    pending := seq(|keys|, i requires 0 <= i < |keys| => Op(keys[i], dirty[keys[i]]));
    forall k <- dirty
      ensures Op(k, dirty[k]) in pending
    {
      var i :| 0 <= i < |keys| && keys[i] == k;
      assert pending[i] == Op(k, dirty[k]);
    }
  }

  // ----- the incremental form -----

  function Written(o: Op): seq<Entry> {
    if o.value.Some? then [Entry(o.key, o.value.value)] else []
  }

  /** The two-way merge, on entries. */
  function Merge(scan: seq<Entry>, pending: seq<Op>): seq<Entry>
    decreases |scan| + |pending|
  {
    if pending == [] then scan
    else if scan == [] then Written(pending[0]) + Merge(scan, pending[1..])
    else if Less(pending[0].key, scan[0].key) then Written(pending[0]) + Merge(scan, pending[1..])
    else if pending[0].key == scan[0].key then Written(pending[0]) + Merge(scan[1..], pending[1..])
    else [scan[0]] + Merge(scan[1..], pending)
  }

  lemma SortedTail<T>(less: (T, T) -> bool, s: seq<T>)
    requires Sorted(less, s) && s != []
    ensures Sorted(less, s[1..]) && forall x <- s[1..] :: less(s[0], x)
  {
    forall x <- s[1..]
      ensures less(s[0], x)
    {
      var i :| 0 <= i < |s| - 1 && s[1..][i] == x;
      assert s[i + 1] == x;
    }
  }

  /** `k` sorts before every key of a sorted scan as soon as it sorts before the first. */
  lemma AheadOfScan(k: Bytes, scan: seq<Entry>)
    requires Sorted(Before, scan) && (scan != [] ==> Less(k, scan[0].key))
    ensures forall e <- scan :: Less(k, e.key) && e.key != k
  {
    if scan != [] {
      SortedTail(Before, scan);
      forall e <- scan
        ensures Less(k, e.key) && e.key != k
      {
        if e != scan[0] {
          LessTransitive(k, scan[0].key, e.key);
        }
        LessAsymmetric(k, e.key);
      }
    }
  }

  lemma AheadOfPending(k: Bytes, pending: seq<Op>)
    requires Sorted(OpBefore, pending) && (pending != [] ==> Less(k, pending[0].key))
    ensures forall o <- pending :: Less(k, o.key) && o.key != k
  {
    if pending != [] {
      SortedTail(OpBefore, pending);
      forall o <- pending
        ensures Less(k, o.key) && o.key != k
      {
        if o != pending[0] {
          LessTransitive(k, pending[0].key, o.key);
        }
        LessAsymmetric(k, o.key);
      }
    }
  }

  /** The merge stays after any key that precedes both inputs. */
  lemma {:induction false} MergeAfter(scan: seq<Entry>, pending: seq<Op>, k: Bytes)
    requires forall e <- scan :: Less(k, e.key)
    requires forall o <- pending :: Less(k, o.key)
    ensures forall e <- Merge(scan, pending) :: Less(k, e.key)
    decreases |scan| + |pending|
  {
    if pending != [] {
      if scan == [] || Less(pending[0].key, scan[0].key) {
        MergeAfter(scan, pending[1..], k);
      } else if pending[0].key == scan[0].key {
        MergeAfter(scan[1..], pending[1..], k);
      } else {
        MergeAfter(scan[1..], pending, k);
      }
    }
  }

  lemma {:induction false} MergeSorted(scan: seq<Entry>, pending: seq<Op>)
    requires Sorted(Before, scan) && Sorted(OpBefore, pending)
    ensures Sorted(Before, Merge(scan, pending))
    decreases |scan| + |pending|
  {
    if pending != [] {
      SortedTail(OpBefore, pending);
      var p := pending[0].key;
      if scan == [] {
        MergeSorted(scan, pending[1..]);
        MergeAfter(scan, pending[1..], p);
      } else {
        SortedTail(Before, scan);
        var s := scan[0].key;
        if Less(p, s) {
          AheadOfScan(p, scan);
          MergeSorted(scan, pending[1..]);
          MergeAfter(scan, pending[1..], p);
        } else if p == s {
          MergeSorted(scan[1..], pending[1..]);
          MergeAfter(scan[1..], pending[1..], p);
        } else {
          LessTotal(p, s);
          AheadOfPending(s, pending);
          MergeSorted(scan[1..], pending);
          MergeAfter(scan[1..], pending, s);
        }
      }
    }
  }

  /** An entry survives the merge iff the block wrote it, or it was there and the
      block did not touch its key. */
  lemma {:induction false} MergeElements(scan: seq<Entry>, pending: seq<Op>, e: Entry)
    requires Sorted(Before, scan) && Sorted(OpBefore, pending)
    ensures e in Merge(scan, pending) <==>
            Op(e.key, Some(e.value)) in pending || (e in scan && forall o <- pending :: o.key != e.key)
    decreases |scan| + |pending|
  {
    if pending != [] {
      SortedTail(OpBefore, pending);
      var o, rest := pending[0], pending[1..];
      assert pending == [o] + rest;
      if scan == [] {
        MergeElements(scan, rest, e);
      } else {
        SortedTail(Before, scan);
        var first, others := scan[0], scan[1..];
        assert scan == [first] + others;
        if Less(o.key, first.key) {
          AheadOfScan(o.key, scan);
          MergeElements(scan, rest, e);
        } else if o.key == first.key {
          AheadOfScan(first.key, others);
          MergeElements(others, rest, e);
        } else {
          LessTotal(o.key, first.key);
          AheadOfPending(first.key, pending);
          MergeElements(others, pending, e);
        }
      }
    }
  }

  /** The merge of the committed scan and the block's dirty set is the scan of the
      written store. */
  lemma MergeIsScan(store: Store, scan: seq<Entry>, writes: seq<Op>, pending: seq<Op>, after: seq<Entry>)
    requires IsScan(store, scan) && IsPending(Dirty(writes), pending)
    requires IsScan(Apply(store, writes), after)
    ensures Merge(scan, pending) == after
  {
    var merged, store' := Merge(scan, pending), Apply(store, writes);
    MergeSorted(scan, pending);
    forall e: Entry
      ensures e in merged <==> e in after
    {
      MergeElements(scan, pending, e);
      if IsSidecar(e.key) {
        DirtyHasNoSidecar(writes, e.key);
      } else {
        ApplyThroughDirty(store, writes, e.key);
      }
    }
    forall x: Entry, y: Entry | Before(x, y)
      ensures !Before(y, x)
    {
      LessAsymmetric(x.key, y.key);
    }
    SortedUnique(Before, merged, after);
  }

  lemma {:induction false} DirtyHasNoSidecar(writes: seq<Op>, k: Bytes)
    requires IsSidecar(k)
    ensures k !in Dirty(writes)
  {
    if writes != [] {
      DirtyHasNoSidecar(writes[..|writes| - 1], k);
    }
  }

  /** The merge as the code runs it: on leaf hashes, without the old values. */
  function MergeLeaves(H: Hasher, index: seq<Slot>, pending: seq<Op>): seq<Hash>
    decreases |index| + |pending|
  {
    if pending == [] then seq(|index|, i requires 0 <= i < |index| => index[i].leaf)
    else if index == [] || Less(pending[0].key, index[0].key) then
      Leaves(H, Data(Written(pending[0]))) + MergeLeaves(H, index, pending[1..])
    else if pending[0].key == index[0].key then
      Leaves(H, Data(Written(pending[0]))) + MergeLeaves(H, index[1..], pending[1..])
    else [index[0].leaf] + MergeLeaves(H, index[1..], pending)
  }

  lemma LeavesAppend(H: Hasher, a: seq<Entry>, b: seq<Entry>)
    ensures Leaves(H, Data(a + b)) == Leaves(H, Data(a)) + Leaves(H, Data(b))
  {
  }

  lemma {:induction false} MergeLeavesOfMerge(H: Hasher, scan: seq<Entry>, pending: seq<Op>)
    ensures MergeLeaves(H, IndexOf(H, scan), pending) == Leaves(H, Data(Merge(scan, pending)))
    decreases |scan| + |pending|
  {
    var index := IndexOf(H, scan);
    if pending != [] {
      var w := Written(pending[0]);
      if scan == [] || Less(pending[0].key, scan[0].key) {
        MergeLeavesOfMerge(H, scan, pending[1..]);
        LeavesAppend(H, w, Merge(scan, pending[1..]));
      } else {
        assert index[1..] == IndexOf(H, scan[1..]);
        if pending[0].key == scan[0].key {
          MergeLeavesOfMerge(H, scan[1..], pending[1..]);
          LeavesAppend(H, w, Merge(scan[1..], pending[1..]));
        } else {
          MergeLeavesOfMerge(H, scan[1..], pending);
          LeavesAppend(H, [scan[0]], Merge(scan[1..], pending));
          assert Leaves(H, Data([scan[0]])) == [index[0].leaf];
        }
      }
    }
  }

  function OpLeaf(H: Hasher, o: Op): (l: seq<Hash>)
    ensures l == Leaves(H, Data(Written(o)))
  {
    if o.value.Some? then [LeafHash(H, o.key + o.value.value)] else []
  }

  /** `leaves` are the merged leaves once `i` slots and `j` operations are consumed. */
  ghost predicate Consumed(H: Hasher, index: seq<Slot>, pending: seq<Op>, i: nat, j: nat, leaves: seq<Hash>)
    requires i <= |index| && j <= |pending|
  {
    leaves + MergeLeaves(H, index[i..], pending[j..]) == MergeLeaves(H, index, pending)
  }

  lemma ConsumeOp(H: Hasher, index: seq<Slot>, pending: seq<Op>, i: nat, j: nat, leaves: seq<Hash>)
    requires i <= |index| && j < |pending|
    requires i == |index| || Less(pending[j].key, index[i].key)
    requires Consumed(H, index, pending, i, j, leaves)
    ensures Consumed(H, index, pending, i, j + 1, leaves + OpLeaf(H, pending[j]))
  {
    hide Less, OpLeaf;
    assert pending[j..][1..] == pending[j + 1..];
    var rest := MergeLeaves(H, index[i..], pending[j + 1..]);
    assert MergeLeaves(H, index[i..], pending[j..]) == OpLeaf(H, pending[j]) + rest;
    assert leaves + (OpLeaf(H, pending[j]) + rest) == (leaves + OpLeaf(H, pending[j])) + rest;
  }

  lemma ConsumeSlot(H: Hasher, index: seq<Slot>, pending: seq<Op>, i: nat, j: nat, leaves: seq<Hash>)
    requires i < |index| && j <= |pending|
    requires j < |pending| ==> !Less(pending[j].key, index[i].key)
    requires Consumed(H, index, pending, i, j, leaves)
    ensures if j < |pending| && pending[j].key == index[i].key
            then Consumed(H, index, pending, i + 1, j + 1, leaves + OpLeaf(H, pending[j]))
            else Consumed(H, index, pending, i + 1, j, leaves + [index[i].leaf])
  {
    assert index[i..][1..] == index[i + 1..];
    if j < |pending| && pending[j].key == index[i].key {
      assert pending[j..][1..] == pending[j + 1..];
      var rest := MergeLeaves(H, index[i + 1..], pending[j + 1..]);
      assert leaves + (OpLeaf(H, pending[j]) + rest) == (leaves + OpLeaf(H, pending[j])) + rest;
    } else {
      var rest := MergeLeaves(H, index[i + 1..], pending[j..]);
      assert MergeLeaves(H, index[i..], pending[j..]) == [index[i].leaf] + rest;
      assert leaves + ([index[i].leaf] + rest) == (leaves + [index[i].leaf]) + rest;
    }
  }

  /** The `while let` loop: emit every operation that sorts before slot `i`. */
  method EmitBefore(H: Hasher, index: seq<Slot>, pending: seq<Op>, i: nat, j0: nat, leaves0: seq<Hash>)
      returns (j: nat, leaves: seq<Hash>)
    requires i <= |index| && j0 <= |pending| && Consumed(H, index, pending, i, j0, leaves0)
    ensures j <= |pending| && Consumed(H, index, pending, i, j, leaves)
    ensures j < |pending| ==> i < |index| && !Less(pending[j].key, index[i].key)
  {
    hide Consumed, MergeLeaves, OpLeaf, Less;
    j, leaves := j0, leaves0;
    while j < |pending| && (i == |index| || Less(pending[j].key, index[i].key))
      invariant j <= |pending| && Consumed(H, index, pending, i, j, leaves)
    {
      ConsumeOp(H, index, pending, i, j, leaves);
      leaves := leaves + OpLeaf(H, pending[j]);
      j := j + 1;
    }
  }

  /** `root_with_pending`: walk the index, consuming operations at or before each
      key, then the operations left over. */
  method RootWithPending(H: Hasher, index: seq<Slot>, pending: seq<Op>) returns (root: Hash)
    ensures root == RootOf(H, MergeLeaves(H, index, pending))
  {
    var leaves: seq<Hash> := [];
    var j: nat := 0;
    assert Consumed(H, index, pending, 0, 0, []) by {
      assert index[0..] == index && pending[0..] == pending;
    }
    for i := 0 to |index|
      invariant j <= |pending| && Consumed(H, index, pending, i, j, leaves)
    {
      j, leaves := EmitBefore(H, index, pending, i, j, leaves);
      ConsumeSlot(H, index, pending, i, j, leaves);
      if j < |pending| && pending[j].key == index[i].key {
        leaves := leaves + OpLeaf(H, pending[j]);
        j := j + 1;
      } else {
        leaves := leaves + [index[i].leaf];
      }
    }
    j, leaves := EmitBefore(H, index, pending, |index|, j, leaves);
    assert leaves == MergeLeaves(H, index, pending) by {
      assert index[|index|..] == [] && pending[j..] == [];
    }
    root := BuildRoot(H, leaves);
  }

  /** Main result: for every committed store and every sequence of writes, the
      incremental root equals a full scan of the written store. */
  lemma IncrementalRootIsScanRoot(H: Hasher, store: Store, scan: seq<Entry>,
                                  writes: seq<Op>, pending: seq<Op>, after: seq<Entry>)
    requires IsScan(store, scan) && IsPending(Dirty(writes), pending)
    requires IsScan(Apply(store, writes), after)
    ensures RootOf(H, MergeLeaves(H, IndexOf(H, scan), pending)) == ScanRoot(H, after)
  {
    MergeIsScan(store, scan, writes, pending, after);
    MergeLeavesOfMerge(H, scan, pending);
  }

  // ----- the index stays warm across commits -----

  /** The leaf index of a store, as a map. */
  ghost function WarmIndex(H: Hasher, store: Store): map<Bytes, Hash> {
    map k | k in store && !IsSidecar(k) :: LeafHash(H, k + store[k])
  }

  function FoldOps(H: Hasher, index: map<Bytes, Hash>, ops: seq<Op>): map<Bytes, Hash> {
    if ops == [] then index
    else
      var before := FoldOps(H, index, ops[..|ops| - 1]);
      var o := ops[|ops| - 1];
      if o.value.Some? then before[o.key := LeafHash(H, o.key + o.value.value)] else before - {o.key}
  }

  /** The commit branch of `finalize_block_impl`: fold the block's operations back. */
  method FoldIntoIndex(H: Hasher, index: map<Bytes, Hash>, pending: seq<Op>) returns (index': map<Bytes, Hash>)
    ensures index' == FoldOps(H, index, pending)
  {
    index' := index;
    for i := 0 to |pending|
      invariant index' == FoldOps(H, index, pending[..i])
    {
      assert pending[..i + 1][..i] == pending[..i];
      var o := pending[i];
      if o.value.Some? {
        index' := index'[o.key := LeafHash(H, o.key + o.value.value)];
      } else {
        index' := index' - {o.key};
      }
    }
    assert pending[..|pending|] == pending;
  }

  /** A key the operations do not touch keeps its leaf; a touched key takes its
      operation's, whatever the order. */
  lemma {:induction false} FoldAt(H: Hasher, index: map<Bytes, Hash>, ops: seq<Op>, k: Bytes)
    requires forall i, j :: 0 <= i < j < |ops| ==> ops[i].key != ops[j].key
    ensures var r := FoldOps(H, index, ops);
            && (forall o <- ops :: o.key == k ==>
                  (k in r <==> o.value.Some?) && (k in r ==> r[k] == LeafHash(H, k + o.value.value)))
            && ((forall o <- ops :: o.key != k) ==> (k in r <==> k in index) && (k in r ==> r[k] == index[k]))
    decreases |ops|
  {
    if ops != [] {
      var n := |ops| - 1;
      FoldAt(H, index, ops[..n], k);
      forall o <- ops | o.key == k && k != ops[n].key
        ensures o in ops[..n]
      {
        var i :| 0 <= i < |ops| && ops[i] == o;
        assert ops[..n][i] == o;
      }
      forall o <- ops | k == ops[n].key && o.key == k
        ensures o == ops[n]
      {
      }
    }
  }

  /** After a commit the folded index is the index of the new store, so every later
      incremental root starts from the right leaves. */
  lemma IndexStaysWarm(H: Hasher, store: Store, writes: seq<Op>, pending: seq<Op>)
    requires IsPending(Dirty(writes), pending)
    ensures FoldOps(H, WarmIndex(H, store), pending) == WarmIndex(H, Apply(store, writes))
  {
    hide FoldOps, Apply, Dirty, WarmIndex;
    var folded, target := FoldOps(H, WarmIndex(H, store), pending), WarmIndex(H, Apply(store, writes));
    forall k: Bytes
      ensures k in folded <==> k in target
      ensures k in folded ==> folded[k] == target[k]
    {
      WarmAt(H, store, writes, pending, k);
    }
  }

  lemma PendingKeysApart(dirty: map<Bytes, Option<Bytes>>, pending: seq<Op>)
    requires IsPending(dirty, pending)
    ensures forall i, j :: 0 <= i < j < |pending| ==> pending[i].key != pending[j].key
  {
    hide Less;
    forall i, j | 0 <= i < j < |pending|
      ensures pending[i].key != pending[j].key
    {
      LessAsymmetric(pending[i].key, pending[j].key);
    }
  }

  lemma WarmAt(H: Hasher, store: Store, writes: seq<Op>, pending: seq<Op>, k: Bytes)
    requires IsPending(Dirty(writes), pending)
    ensures var folded, target := FoldOps(H, WarmIndex(H, store), pending), WarmIndex(H, Apply(store, writes));
            (k in folded <==> k in target) && (k in folded ==> folded[k] == target[k])
  {
    hide FoldOps, Apply, Dirty, Less;
    PendingKeysApart(Dirty(writes), pending);
    FoldAt(H, WarmIndex(H, store), pending, k);
    if IsSidecar(k) {
      DirtyHasNoSidecar(writes, k);
    } else {
      ApplyThroughDirty(store, writes, k);
      if k in Dirty(writes) {
        assert Op(k, Dirty(writes)[k]) in pending;
      }
    }
  }
}
