/** What single steps of the node leave behind: on disk, in the pending buffer and in the
    request marks. */
module NodeEffects {
  import opened Common
  import opened Chain
  import opened Node
  import opened NodeSafety
  import opened NodeTheorems
  import P = PayloadStore

  /** An executed block leaves the pending buffer and, once its write gets through, is what
      the disk serves for its digest and its height. */
  lemma ExecutedIsStored(m: Machine, g: App, s: System, io: P.Io)
    requires Inv(m, g, s) && Enabled(s, ExecuteNext(io))
    requires Step(m, s, ExecuteNext(io)).node.last == Of(s.task.chain[s.task.done])
    ensures var n, n', p := s.node, Step(m, s, ExecuteNext(io)).node, s.task.chain[s.task.done];
            && n'.pending == n.pending - {Of(p)}
            && (n.store.persistent && io == P.Done ==>
                  P.Get(n'.store, Of(p)) == Some(p) && P.GetByHeight(n'.store, p.height) == Some(p))
  {
    hide P.Valid, P.PutWith, P.Get, P.GetByHeight, CacheOk, PendingOk, Executed;
    NextOnPath(s.node.last, s.node.height, s.task);
    ParentDiffers(s.task.chain[s.task.done]);
    if s.node.store.persistent && io == P.Done {
      StoredByPut(s.node.store, s.task.chain[s.task.done]);
    }
  }

  lemma StoredByPut(store: P.Disk, p: Payload)
    requires P.Valid(store) && store.persistent
    ensures P.Get(P.PutWith(store, p, true, P.Done).0, Of(p)) == Some(p)
    ensures P.GetByHeight(P.PutWith(store, p, true, P.Done).0, p.height) == Some(p)
  {
    hide P.PutWith, P.Get, P.GetByHeight;
    P.PutIsExact(store, p, true, P.Done, Of(p));
    P.ExecutedPayloadIsServed(store, p, []);
  }

  /** A call that arrived drops from the buffer exactly what is at or below the new tip, and
      from the disk exactly what is more than the retention window below it. */
  lemma FinalizeEndDrops(m: Machine, g: App, s: System, d: Digest)
    requires Inv(m, g, s) && Enabled(s, FinalizeEnd)
    ensures var n, n' := s.node, Step(m, s, FinalizeEnd).node;
            && (d in n'.pending <==> d in n.pending && d.payload.height > n.height)
            && (d in n'.pending ==> n'.pending[d] == n.pending[d])
            && (P.Get(n'.store, d).Some? <==>
                P.Get(n.store, d).Some? && d.payload.height + P.RETAIN_HEIGHTS >= n.height)
  {
    hide P.PruneBelow, P.Get, P.Valid;
    P.PruneIsExact(s.node.store, SubSat(s.node.height, P.RETAIN_HEIGHTS), d);
    GetHasDigest(s.node.store, d);
  }

  lemma GetHasDigest(store: P.Disk, d: Digest)
    requires P.Valid(store)
    ensures P.Get(store, d).Some? ==> d.Of?
  {
    P.GetReadsBack(store, d);
  }

  /** After a restart with a disk a payload is pending iff it reads back and is above the
      tip; without one nothing is. Every request mark and staged root is forgotten. */
  lemma RestartRecovers(m: Machine, g: App, s: System, listing: seq<P.File>, p: Payload)
    requires Inv(m, g, s) && Enabled(s, Restart(listing))
    ensures var n, n' := s.node, Step(m, s, Restart(listing)).node;
            && (Of(p) in n'.pending <==>
                n.store.persistent && P.Get(n.store, Of(p)) == Some(p) && p.height > n.height)
            && PendingOk(n'.pending) && SameTip(n, n') && n'.maxSeen == n.height
            && n'.store.persistent == n.store.persistent && (n.store.persistent ==> n'.store.dir == n.store.dir)
            && n'.requested == {} && n'.requestedHeights == map[] && n'.staged == map[]
  {
    RestartKeepsTip(m, g, s, listing);
    StepKeepsInv(m, g, s, Restart(listing));
    var store := Step(m, s, Restart(listing)).node.store;
    if s.node.store.persistent {
      ReopenKeeps(s.node.store, listing, Of(p));
      OpenedPersists(s.node.store.dir, listing);
    }
    P.AboveIsExact(store, s.node.app.height, p);
  }

  lemma ReopenKeeps(store: P.Disk, listing: seq<P.File>, d: Digest)
    requires P.Valid(store) && store.persistent && P.IsListing(store.dir, listing)
    ensures P.Valid(P.Opened(store.dir, listing))
    ensures P.Get(P.Opened(store.dir, listing), d) == P.Get(store, d)
  {
    hide P.Opened, P.IsListing, P.Get;
    P.OpenedValid(store.dir, listing);
    P.IndexMirrorsDirectory(store, d);
    P.GetReadsBack(store, d);
    P.GetReadsBack(P.Opened(store.dir, listing), d);
  }

  lemma {:induction false} OpenedPersists(dir: P.Directory, listing: seq<P.File>)
    ensures P.Opened(dir, listing).persistent && P.Opened(dir, listing).dir == dir
    decreases |listing|
  {
    if listing != [] {
      OpenedPersists(dir, listing[..|listing| - 1]);
    }
  }

  /** A request is remembered, and forgets the others only at capacity. */
  lemma RequestIsRemembered(n: Node, d: Digest, e: Digest)
    ensures e in RequestPayload(n, d).requested <==> e == d || (e in n.requested && |n.requested| < MAX_REQUESTED)
  {
  }
}
