/** The durable payload store: one file per payload, a digest index and a height
    index, written by write-then-rename. */
module PayloadStore {
  import opened Common
  import opened Chain

  /** File names: `{hex(digest)}.{height}`, and `{hex(digest)}.tmp`, which never parses
      as a payload name. */
  datatype File = Final(digest: Digest, height: nat) | Tmp(digest: Digest)

  /** File contents: the bytes of a payload, or anything else. */
  datatype Content = Whole(payload: Payload) | Torn

  type Directory = map<File, Content>

  datatype Disk = Disk(
    persistent: bool,
    dir: Directory,
    index: map<Digest, nat>,
    byHeight: map<nat, Digest>)

  /** How far a write got. */
  datatype Io = Done | WriteFailed | RenameFailed

  const RETAIN_HEIGHTS: nat := 65_536

  // ----- reading -----

  /** `get`: the bytes must decode to a payload with the requested digest. */
  function Get(s: Disk, d: Digest): Option<Payload> {
    if d !in s.index || !s.persistent then None
    else
      var file := Final(d, s.index[d]);
      if file in s.dir && s.dir[file].Whole? && Of(s.dir[file].payload) == d then Some(s.dir[file].payload) else None
  }

  /** `get_by_height`. */
  function GetByHeight(s: Disk, h: nat): Option<Payload> {
    if h !in s.byHeight then None else Get(s, s.byHeight[h])
  }

  // ----- writing -----

  /** The single file operations a crash can fall between. A write is not atomic: the
      file first exists with unfinished bytes. */
  datatype FileOp = Create(d: Digest) | Fill(d: Digest, p: Payload) | Rename(d: Digest, h: nat) | Remove(file: File)

  function Perform(dir: Directory, op: FileOp): Directory {
    match op
    case Create(d) => dir[Tmp(d) := Torn]
    case Fill(d, p) => dir[Tmp(d) := Whole(p)]
    case Rename(d, h) => if Tmp(d) in dir then (dir - {Tmp(d)})[Final(d, h) := dir[Tmp(d)]] else dir
    case Remove(file) => dir - {file}
  }

  function PerformAll(dir: Directory, ops: seq<FileOp>): Directory {
    if ops == [] then dir else Perform(PerformAll(dir, ops[..|ops| - 1]), ops[|ops| - 1])
  }

  /** The file operations of one put. */
  function PutOps(p: Payload): seq<FileOp> {
    [Create(Of(p)), Fill(Of(p), p), Rename(Of(p), p.height)]
  }

  function Claim(byHeight: map<nat, Digest>, p: Payload, canonical: bool): map<nat, Digest> {
    if canonical || p.height !in byHeight then byHeight[p.height := Of(p)] else byHeight
  }

  /** `put_with`: the next store, and whether it returned `Ok`. */
  function PutWith(s: Disk, p: Payload, canonical: bool, io: Io): (Disk, bool) {
    var d := Of(p);
    if d in s.index then (s.(byHeight := Claim(s.byHeight, p, canonical)), true)
    else if !s.persistent then (s, true)
    else
      match io
      case WriteFailed => (s.(dir := PerformAll(s.dir, PutOps(p)[..1])), false)
      case RenameFailed => (s.(dir := PerformAll(s.dir, PutOps(p)[..2])), false)
      case Done =>
        (Disk(true, PerformAll(s.dir, PutOps(p)), s.index[d := p.height], Claim(s.byHeight, p, canonical)), true)
  }

  /** Indexed payloads below `height`. */
  function Stale(s: Disk, height: nat): set<Digest> {
    set d | d in s.index && s.index[d] < height
  }

  function Files(s: Disk, gone: set<Digest>): set<File> {
    if s.persistent then set d | d in gone && d in s.index :: Final(d, s.index[d]) else {}
  }

  function Heights(s: Disk, gone: set<Digest>): set<nat> {
    set d | d in gone && d in s.index :: s.index[d]
  }

  /** The store once the payloads `gone` are deleted. */
  function Without(s: Disk, gone: set<Digest>): Disk {
    Disk(s.persistent, s.dir - Files(s, gone), s.index - gone, s.byHeight - Heights(s, gone))
  }

  /** `prune_below`. */
  function PruneBelow(s: Disk, height: nat): Disk {
    Without(s, Stale(s, height))
  }

  // ----- opening -----

  /** `open`, visiting the directory in the order of `listing`; later names win. */
  function Opened(dir: Directory, listing: seq<File>): Disk {
    if listing == [] then Disk(true, dir, map[], map[])
    else
      var s := Opened(dir, listing[..|listing| - 1]);
      var f := listing[|listing| - 1];
      if f.Tmp? then s
      else s.(index := s.index[f.digest := f.height], byHeight := s.byHeight[f.height := f.digest])
  }

  /** `listing` names every file of `dir` once, in some order. */
  predicate IsListing(dir: Directory, listing: seq<File>) {
    && (forall f <- listing :: f in dir)
    && (forall f <- dir :: f in listing)
    && (forall i, j :: 0 <= i < j < |listing| ==> listing[i] != listing[j])
  }

  // ----- invariants -----

  /** Every payload file holds, whole, the payload its name promises. */
  ghost predicate DirOk(dir: Directory) {
    forall f <- dir :: f.Final? ==>
      dir[f].Whole? && Of(dir[f].payload) == f.digest && dir[f].payload.height == f.height
  }

  ghost predicate Valid(s: Disk) {
    && (if s.persistent then DirOk(s.dir) else s.dir == map[] && s.index == map[])
    && (forall d <- s.index :: d.Of? && d.payload.height == s.index[d])
    && (forall d <- s.index :: Final(d, s.index[d]) in s.dir)
    && (forall f <- s.dir :: f.Final? ==> f.digest in s.index && s.index[f.digest] == f.height)
    && (forall h <- s.byHeight :: s.byHeight[h] in s.index && s.index[s.byHeight[h]] == h)
    && (forall d <- s.index :: s.index[d] in s.byHeight)
  }

  /** Indexed is readable, and nothing else is. */
  lemma GetReadsBack(s: Disk, d: Digest)
    requires Valid(s)
    ensures Get(s, d) == if d in s.index then Some(d.payload) else None
  {
    if d in s.index {
      var file := Final(d, s.index[d]);
      assert file in s.dir;
    }
  }

  lemma PutOpsUnfold(dir: Directory, p: Payload)
    ensures PerformAll(dir, PutOps(p)[..0]) == dir
    ensures PerformAll(dir, PutOps(p)[..1]) == dir[Tmp(Of(p)) := Torn]
    ensures PerformAll(dir, PutOps(p)[..2]) == dir[Tmp(Of(p)) := Whole(p)]
    ensures PerformAll(dir, PutOps(p)) == (dir - {Tmp(Of(p))})[Final(Of(p), p.height) := Whole(p)]
  {
    var ops := PutOps(p);
    assert ops[..1][..0] == [] && ops[..2][..1] == ops[..1] && ops[..2] == ops[..|ops| - 1];
    assert PerformAll(dir, ops[..1]) == dir[Tmp(Of(p)) := Torn];
    assert PerformAll(dir, ops[..2]) == dir[Tmp(Of(p)) := Torn][Tmp(Of(p)) := Whole(p)];
    assert dir[Tmp(Of(p)) := Torn][Tmp(Of(p)) := Whole(p)] == dir[Tmp(Of(p)) := Whole(p)];
    assert dir[Tmp(Of(p)) := Whole(p)] - {Tmp(Of(p))} == dir - {Tmp(Of(p))};
  }

  lemma PutKeepsValid(s: Disk, p: Payload, canonical: bool, io: Io)
    requires Valid(s)
    ensures Valid(PutWith(s, p, canonical, io).0)
  {
    hide PerformAll, PutOps, Valid, DirOk;
    PutOpsUnfold(s.dir, p);
    if Of(p) in s.index {
      ClaimKeepsValid(s, p, canonical);
    } else if s.persistent {
      TmpKeepsValid(s, Of(p), Torn);
      TmpKeepsValid(s, Of(p), Whole(p));
      PutNewKeepsValid(s, p, canonical);
    }
  }

  lemma ClaimKeepsValid(s: Disk, p: Payload, canonical: bool)
    requires Valid(s) && Of(p) in s.index
    ensures Valid(s.(byHeight := Claim(s.byHeight, p, canonical)))
  {
  }

  lemma TmpKeepsValid(s: Disk, d: Digest, c: Content)
    requires Valid(s) && s.persistent
    ensures Valid(s.(dir := s.dir[Tmp(d) := c]))
  {
  }

  lemma PutNewKeepsValid(s: Disk, p: Payload, canonical: bool)
    requires Valid(s) && s.persistent && Of(p) !in s.index
    ensures Valid(Disk(true, (s.dir - {Tmp(Of(p))})[Final(Of(p), p.height) := Whole(p)],
                       s.index[Of(p) := p.height], Claim(s.byHeight, p, canonical)))
  {
  }

  lemma WithoutKeepsValid(s: Disk, height: nat)
    requires Valid(s)
    ensures Valid(PruneBelow(s, height))
  {
    var t := PruneBelow(s, height);
    forall h <- t.byHeight
      ensures t.byHeight[h] in t.index
    {
      assert s.byHeight[h] !in Stale(s, height);
    }
    forall d <- t.index
      ensures t.index[d] in t.byHeight
    {
      assert forall e <- Stale(s, height) :: s.index[e] != s.index[d];
    }
  }

  /** What a put does, exactly: it succeeds iff the payload is indexed already, the store is
      in memory, or the write gets through; a success on disk makes the payload readable,
      nothing else changes which payloads are, and a failure leaves all as it was. */
  lemma PutIsExact(s: Disk, p: Payload, canonical: bool, io: Io, d: Digest)
    requires Valid(s)
    ensures var (t, ok) := PutWith(s, p, canonical, io);
            && (ok <==> Of(p) in s.index || !s.persistent || io == Done)
            && (Get(t, d).Some? <==> Get(s, d).Some? || (ok && s.persistent && d == Of(p)))
            && (Get(t, d).Some? ==> d == Of(Get(t, d).value))
            && (!ok ==> t.index == s.index && t.byHeight == s.byHeight)
  {
    PutKeepsValid(s, p, canonical, io);
    GetReadsBack(s, d);
    GetReadsBack(PutWith(s, p, canonical, io).0, d);
  }

  /** What pruning does, exactly: payloads below the bound are gone, all others stay. */
  lemma PruneIsExact(s: Disk, height: nat, d: Digest)
    requires Valid(s)
    ensures var t := PruneBelow(s, height);
            && (Get(t, d).Some? <==> Get(s, d).Some? && d.payload.height >= height)
            && (Get(t, d).Some? ==> Get(t, d) == Get(s, d))
  {
    WithoutKeepsValid(s, height);
    GetReadsBack(s, d);
    GetReadsBack(PruneBelow(s, height), d);
  }

  // ----- the canonical payload stays on top -----

  /** Events that leave the executed payload of height `h` in charge: certify-time
      puts, executed puts of other heights, and pruning at or below it. */
  datatype Event = Put(p: Payload, io: Io) | PutExecuted(p: Payload, io: Io) | Prune(below: nat)

  function Next(s: Disk, e: Event): Disk {
    match e
    case Put(p, io) => PutWith(s, p, false, io).0
    case PutExecuted(p, io) => PutWith(s, p, true, io).0
    case Prune(below) => PruneBelow(s, below)
  }

  function Run(s: Disk, events: seq<Event>): Disk {
    if events == [] then s else Next(Run(s, events[..|events| - 1]), events[|events| - 1])
  }

  ghost predicate Spares(e: Event, h: nat) {
    match e
    case Put(_, _) => true
    case PutExecuted(p, _) => p.height != h
    case Prune(below) => below <= h
  }

  lemma {:induction false} RunKeepsValid(s: Disk, events: seq<Event>)
    requires Valid(s)
    ensures Valid(Run(s, events))
    decreases |events|
  {
    if events != [] {
      var n := |events| - 1;
      RunKeepsValid(s, events[..n]);
      var t := Run(s, events[..n]);
      match events[n]
      case Put(p, io) => PutKeepsValid(t, p, false, io);
      case PutExecuted(p, io) => PutKeepsValid(t, p, true, io);
      case Prune(below) => WithoutKeepsValid(t, below);
    }
  }

  lemma NextKeepsCanonical(s: Disk, e: Event, p: Payload)
    requires Valid(s) && Spares(e, p.height)
    requires p.height in s.byHeight && s.byHeight[p.height] == Of(p)
    ensures var t := Next(s, e); p.height in t.byHeight && t.byHeight[p.height] == Of(p)
  {
    if e.Prune? {
      assert forall d <- Stale(s, e.below) :: s.index[d] != p.height;
    }
  }

  lemma PutExecutedClaims(s: Disk, p: Payload)
    requires s.persistent
    ensures var t := PutWith(s, p, true, Done).0; p.height in t.byHeight && t.byHeight[p.height] == Of(p)
  {
  }

  /** However many rivals are certified afterwards, the most recently executed payload
      of a height is what the height index serves until it is pruned. */
  lemma {:induction false} ExecutedPayloadIsServed(s: Disk, p: Payload, events: seq<Event>)
    requires Valid(s) && s.persistent
    requires forall e <- events :: Spares(e, p.height)
    ensures var t := Run(PutWith(s, p, true, Done).0, events);
            p.height in t.byHeight && t.byHeight[p.height] == Of(p) && GetByHeight(t, p.height) == Some(p)
    decreases |events|
  {
    hide PutWith, Next, Valid, Spares;
    var start := PutWith(s, p, true, Done).0;
    PutKeepsValid(s, p, true, Done);
    RunKeepsValid(start, events);
    var t := Run(start, events);
    if events == [] {
      PutExecutedClaims(s, p);
    } else {
      var n := |events| - 1;
      ExecutedPayloadIsServed(s, p, events[..n]);
      RunKeepsValid(start, events[..n]);
      NextKeepsCanonical(Run(start, events[..n]), events[n], p);
    }
    ServedIsIndexed(t, p);
  }

  lemma ServedIsIndexed(s: Disk, p: Payload)
    requires Valid(s) && p.height in s.byHeight && s.byHeight[p.height] == Of(p)
    ensures GetByHeight(s, p.height) == Some(p)
  {
    GetReadsBack(s, Of(p));
  }

  // ----- crashes and reopening -----

  /** `s` indexes exactly the payload files of `listing`. */
  ghost predicate Indexes(s: Disk, listing: seq<File>) {
    && (forall d :: d in s.index <==> d.Of? && Final(d, d.payload.height) in listing)
    && (forall d <- s.index :: s.index[d] == d.payload.height)
    && (forall h <- s.byHeight :: s.byHeight[h] in s.index && s.index[s.byHeight[h]] == h)
    && (forall d <- s.index :: s.index[d] in s.byHeight)
  }

  lemma FileIsIndexed(s: Disk, listing: seq<File>, f: File)
    requires Indexes(s, listing)
    requires f.Final? ==> f.digest.Of? && f.digest.payload.height == f.height
    ensures Indexes(if f.Tmp? then s
                    else s.(index := s.index[f.digest := f.height], byHeight := s.byHeight[f.height := f.digest]),
                    listing + [f])
  {
  }

  /** What indexing a sound directory yields, in any order. */
  lemma {:induction false} OpenedIndexes(dir: Directory, listing: seq<File>)
    requires DirOk(dir) && forall f <- listing :: f in dir
    ensures var s := Opened(dir, listing); s.dir == dir && s.persistent && Indexes(s, listing)
    decreases |listing|
  {
    if listing != [] {
      hide Indexes;
      var n := |listing| - 1;
      OpenedIndexes(dir, listing[..n]);
      var f := listing[n];
      assert f in listing;
      assert listing == listing[..n] + [f];
      FileIsIndexed(Opened(dir, listing[..n]), listing[..n], f);
    }
  }

  /** Opening a sound directory gives a valid store. */
  lemma OpenedValid(dir: Directory, listing: seq<File>)
    requires DirOk(dir) && IsListing(dir, listing)
    ensures Valid(Opened(dir, listing)) && Opened(dir, listing).persistent
    ensures forall d: Digest :: d in Opened(dir, listing).index <==> d.Of? && Final(d, d.payload.height) in dir
  {
    OpenedIndexes(dir, listing);
  }

  /** The directories a crash inside one operation can leave behind. */
  ghost predicate CrashDuringPut(s: Disk, p: Payload, dir: Directory) {
    exists k: nat {:trigger PutOps(p)[..k]} :: k <= 3 && dir == PerformAll(s.dir, PutOps(p)[..k])
  }

  ghost predicate CrashDuringPrune(s: Disk, height: nat, dir: Directory) {
    exists gone: set<Digest> :: gone <= Stale(s, height) && dir == Without(s, gone).dir
  }

  lemma CrashDuringPutDir(s: Disk, p: Payload, dir: Directory)
    requires Valid(s) && s.persistent && CrashDuringPut(s, p, dir)
    ensures DirOk(dir)
    ensures forall f: File :: f.Final? && f != Final(Of(p), p.height) ==> (f in dir <==> f in s.dir)
    ensures Final(Of(p), p.height) in s.dir ==> Final(Of(p), p.height) in dir
  {
    hide PerformAll;
    PutOpsUnfold(s.dir, p);
    assert PutOps(p)[..3] == PutOps(p);
  }

  lemma IndexMirrorsDirectory(s: Disk, d: Digest)
    requires Valid(s) && s.persistent
    ensures d in s.index <==> d.Of? && Final(d, d.payload.height) in s.dir
    ensures d in s.index ==> s.index[d] == d.payload.height
  {
  }

  /** Reopening a sound directory: a valid store in which every entry reads back whole. */
  lemma ReopenReadsBack(dir: Directory, listing: seq<File>)
    requires DirOk(dir) && IsListing(dir, listing)
    ensures var t := Opened(dir, listing);
            && Valid(t)
            && (forall d <- t.index :: Get(t, d) == Some(d.payload))
            && (forall d: Digest :: d in t.index <==> d.Of? && Final(d, d.payload.height) in dir)
  {
    hide Opened, Get, Valid, IsListing, DirOk;
    OpenedValid(dir, listing);
    var t := Opened(dir, listing);
    forall d <- t.index {
      GetReadsBack(t, d);
    }
  }

  /** After a crash between any two file operations of a put, reopening finds every
      payload that was stored before, whole, and at most the new one besides. */
  lemma CrashDuringPutIsSafe(s: Disk, p: Payload, dir: Directory, listing: seq<File>)
    requires Valid(s) && s.persistent && Of(p) !in s.index
    requires CrashDuringPut(s, p, dir) && IsListing(dir, listing)
    ensures var t := Opened(dir, listing);
            && Valid(t)
            && (forall d <- t.index :: Get(t, d) == Some(d.payload))
            && (forall d <- s.index :: d in t.index)
            && (forall d <- t.index :: d in s.index || d == Of(p))
  {
    hide CrashDuringPut, Opened, Get, Valid, IsListing, DirOk;
    CrashDuringPutDir(s, p, dir);
    ReopenReadsBack(dir, listing);
    forall d: Digest {
      IndexMirrorsDirectory(s, d);
    }
  }

  /** After a crash inside a prune, everything at or above the bound is still there. */
  lemma CrashDuringPruneIsSafe(s: Disk, height: nat, dir: Directory, listing: seq<File>)
    requires Valid(s) && s.persistent
    requires CrashDuringPrune(s, height, dir) && IsListing(dir, listing)
    ensures var t := Opened(dir, listing);
            && Valid(t)
            && (forall d <- t.index :: Get(t, d) == Some(d.payload))
            && (forall d <- t.index :: d in s.index)
            && (forall d <- s.index :: s.index[d] >= height ==> d in t.index)
  {
    hide Opened, Get, IsListing;
    assert DirOk(dir);
    ReopenReadsBack(dir, listing);
    forall d: Digest {
      IndexMirrorsDirectory(s, d);
    }
  }

  /** Which payload a height serves after reopening depends on the directory order: of the
      files of a height the one listed last wins it. */
  lemma {:induction false} LastListedWins(dir: Directory, listing: seq<File>, k: nat)
    requires k < |listing| && listing[k].Final?
    requires forall i :: k < i < |listing| && listing[i].Final? ==> listing[i].height != listing[k].height
    ensures var f := listing[k];
            f.height in Opened(dir, listing).byHeight && Opened(dir, listing).byHeight[f.height] == f.digest
    decreases |listing|
  {
    if k < |listing| - 1 {
      LastListedWins(dir, listing[..|listing| - 1], k);
    }
  }

  /** The executed payload is served after every reopening iff it is the only stored
      payload of its height; with a rival on disk some listing serves the rival. */
  lemma ServedAfterReopenIffAlone(s: Disk, p: Payload)
    requires Valid(s) && s.persistent && Of(p) in s.index
    ensures (forall listing :: IsListing(s.dir, listing) ==> GetByHeight(Opened(s.dir, listing), p.height) == Some(p))
            <==> (forall d <- s.index :: s.index[d] == p.height ==> d == Of(p))
  {
    hide Opened, IsListing, GetByHeight;
    if forall d <- s.index :: s.index[d] == p.height ==> d == Of(p) {
      forall listing | IsListing(s.dir, listing)
        ensures GetByHeight(Opened(s.dir, listing), p.height) == Some(p)
      {
        AloneIsServed(s, p, listing);
      }
    } else {
      var d :| d in s.index && s.index[d] == p.height && d != Of(p);
      var listing := RivalIsServed(s, d);
    }
  }

  lemma RivalIsServed(s: Disk, d: Digest) returns (listing: seq<File>)
    requires Valid(s) && s.persistent && d in s.index
    ensures d.Of? && IsListing(s.dir, listing)
    ensures GetByHeight(Opened(s.dir, listing), s.index[d]) == Some(d.payload)
  {
    hide Opened, IsListing, GetByHeight;
    assert Final(d, s.index[d]) in s.dir;
    listing := ListingEndingWith(s.dir, Final(d, s.index[d]));
    LastListedWins(s.dir, listing, |listing| - 1);
    OpenedValid(s.dir, listing);
    ServedIsIndexed(Opened(s.dir, listing), d.payload);
  }

  lemma AloneIsServed(s: Disk, p: Payload, listing: seq<File>)
    requires Valid(s) && s.persistent && Of(p) in s.index && IsListing(s.dir, listing)
    requires forall d <- s.index :: s.index[d] == p.height ==> d == Of(p)
    ensures GetByHeight(Opened(s.dir, listing), p.height) == Some(p)
  {
    hide Opened, IsListing, GetByHeight;
    OpenedValid(s.dir, listing);
    var t := Opened(s.dir, listing);
    assert Final(Of(p), p.height) in s.dir;
    assert Of(p) in t.index && t.index[Of(p)] == p.height;
    var served := t.byHeight[p.height];
    assert Final(served, p.height) in s.dir;
    ServedIsIndexed(t, p);
  }

  lemma ListingEndingWith(dir: Directory, last: File) returns (listing: seq<File>)
    requires last in dir
    ensures IsListing(dir, listing) && listing != [] && listing[|listing| - 1] == last
  {
    listing := [];
    var left := dir.Keys - {last};
    while left != {}
      invariant left <= dir.Keys - {last}
      invariant forall f <- listing :: f in dir && f != last && f !in left
      invariant forall f <- dir :: f in left || f == last || f in listing
      invariant forall i, j :: 0 <= i < j < |listing| ==> listing[i] != listing[j]
      decreases left
    {
      var f :| f in left;
      listing := listing + [f];
      left := left - {f};
    }
    listing := listing + [last];
  }

  /** All stored payloads strictly above `height`. */
  function PayloadsAbove(s: Disk, height: nat): set<Payload> {
    set d | d in s.index && s.index[d] > height && Get(s, d).Some? :: Get(s, d).value
  }

  /** Those are the payloads above `height` that read back. */
  lemma AboveIsExact(s: Disk, height: nat, p: Payload)
    requires Valid(s)
    ensures p in PayloadsAbove(s, height) <==> Get(s, Of(p)) == Some(p) && p.height > height
  {
    GetReadsBack(s, Of(p));
    if p in PayloadsAbove(s, height) {
      var d :| d in s.index && s.index[d] > height && Get(s, d) == Some(p);
      GetReadsBack(s, d);
    }
  }

  // ----- the store as the node holds it -----

  class FileStore {
    var persistent: bool
    var dir: Directory
    var index: map<Digest, nat>
    var byHeight: map<nat, Digest>

    ghost function View(): Disk
      reads this
    {
      Disk(persistent, dir, index, byHeight)
    }

    /** `in_memory`. */
    constructor InMemory()
      ensures View() == Disk(false, map[], map[], map[]) && Valid(View())
    {
      persistent, dir, index, byHeight := false, map[], map[], map[];
    }

    /** `open`: index the files of `dir` in the order they are listed. */
    constructor Open(dir: Directory, listing: seq<File>)
      requires IsListing(dir, listing)
      ensures View() == Opened(dir, listing)
      ensures DirOk(dir) ==> Valid(View())
    {
      this.persistent, this.dir := true, dir;
      this.index, this.byHeight := map[], map[];
      new;
      for i := 0 to |listing|
        invariant View() == Opened(dir, listing[..i])
      {
        assert listing[..i + 1][..i] == listing[..i];
        match listing[i] {
          case Tmp(_) =>
          case Final(d, h) =>
            index := index[d := h];
            byHeight := byHeight[h := d];
        }
      }
      assert listing[..|listing|] == listing;
      if DirOk(dir) {
        OpenedValid(dir, listing);
      }
    }

    method Fetch(d: Digest) returns (r: Option<Payload>)
      ensures r == Get(View(), d)
    {
      if d !in index || !persistent {
        return None;
      }
      var file := Final(d, index[d]);
      if file !in dir || dir[file].Torn? || Of(dir[file].payload) != d {
        return None;
      }
      return Some(dir[file].payload);
    }

    /** `put_with`, behind `put` and `put_executed`. `io` says how far the disk let the
        write get. */
    method Store(p: Payload, canonical: bool, io: Io) returns (ok: bool)
      requires Valid(View())
      modifies this
      ensures (View(), ok) == PutWith(old(View()), p, canonical, io)
      ensures Valid(View())
    {
      hide Valid, PerformAll;
      PutKeepsValid(View(), p, canonical, io);
      PutOpsUnfold(dir, p);
      var d := Of(p);
      if d !in index {
        if !persistent {
          return true;
        }
        if io.WriteFailed? {
          dir := dir[Tmp(d) := Torn];
          return false;
        }
        dir := dir[Tmp(d) := Whole(p)];
        if io.RenameFailed? {
          return false;
        }
        assert dir - {Tmp(d)} == old(dir) - {Tmp(d)};
        dir := (dir - {Tmp(d)})[Final(d, p.height) := Whole(p)];
        index := index[d := p.height];
      }
      if canonical || p.height !in byHeight {
        byHeight := byHeight[p.height := d];
      }
      return true;
    }

    /** `prune_below`: every stale payload in turn. */
    method Prune(height: nat)
      requires Valid(View())
      modifies this
      ensures View() == PruneBelow(old(View()), height)
      ensures Valid(View())
    {
      hide Valid, Without;
      ghost var s := View();
      var stale := set d | d in index && index[d] < height;
      ghost var gone := {};
      WithoutNothing(s);
      while stale != {}
        invariant stale !! gone && stale + gone == Stale(s, height)
        invariant View() == Without(s, gone)
        decreases stale
      {
        var d :| d in stale;
        WithoutOneMore(s, gone, d);
        var h := index[d];
        if persistent {
          dir := dir - {Final(d, h)};
        }
        index := index - {d};
        byHeight := byHeight - {h};
        stale := stale - {d};
        gone := gone + {d};
      }
      WithoutKeepsValid(s, height);
    }

    method Above(height: nat) returns (r: set<Payload>)
      ensures r == PayloadsAbove(View(), height)
    {
      r := {};
      var left := set d | d in index && index[d] > height;
      while left != {}
        invariant forall d <- left :: d in index && index[d] > height
        invariant r <= PayloadsAbove(View(), height)
        invariant forall d <- index ::
                    index[d] > height && Get(View(), d).Some? ==> d in left || Get(View(), d).value in r
        decreases left
      {
        var d :| d in left;
        var p := Fetch(d);
        if p.Some? {
          r := r + {p.value};
        }
        left := left - {d};
      }
    }
  }

  lemma WithoutNothing(s: Disk)
    ensures Without(s, {}) == s
  {
    assert Files(s, {}) == {} && Heights(s, {}) == {};
    assert s.dir - {} == s.dir && s.index - {} == s.index && s.byHeight - {} == s.byHeight;
  }

  lemma MinusOneMore<K, V>(m: map<K, V>, gone: set<K>, k: K)
    ensures m - (gone + {k}) == (m - gone) - {k}
  {
  }

  /** Deleting one payload after others. */
  lemma WithoutOneMore(s: Disk, gone: set<Digest>, d: Digest)
    requires d in s.index && d !in gone
    ensures var t, u, h := Without(s, gone), Without(s, gone + {d}), s.index[d];
            && u.persistent == t.persistent == s.persistent
            && d in t.index && t.index[d] == h
            && u.dir == (if s.persistent then t.dir - {Final(d, h)} else t.dir)
            && u.index == t.index - {d}
            && u.byHeight == t.byHeight - {h}
  {
    var h := s.index[d];
    assert Heights(s, gone + {d}) == Heights(s, gone) + {h};
    MinusOneMore(s.byHeight, Heights(s, gone), h);
    MinusOneMore(s.index, gone, d);
    if s.persistent {
      assert Files(s, gone + {d}) == Files(s, gone) + {Final(d, h)};
      MinusOneMore(s.dir, Files(s, gone), Final(d, h));
    }
  }
}
