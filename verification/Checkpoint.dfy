/** The checkpoint daemon's cursor: one pass fetches a window, anchors it and, once the
    anchor is verified, moves on. */
module Checkpoint {
  import opened Common
  import opened Ordering
  import opened Merkle
  import opened Events
  import opened Package
  import opened Window
  import RelayStore

  datatype Config = Config(maxSize: nat, bootstrapHours: nat)

  /** What can go wrong in a pass: the saved state or the relay cannot be reached, some
      page requests fail, the anchor does not read back, the new state is not saved. */
  datatype Io = Io(loaded: bool, connected: bool, failing: set<nat>, verified: bool, saved: bool)

  /** One pass: the clock, the requested end, and its luck. */
  datatype Pass = Pass(now: nat, to: nat, io: Io)

  /** A window the cursor moved over, and its package; a quiet one has none. */
  datatype Covered = Covered(from: nat, to: nat, package: Option<AnchorPackage>)

  function StartOf(cfg: Config, cursor: Option<nat>, pass: Pass): nat {
    if cursor.Some? then cursor.value else SubSat(pass.now, cfg.bootstrapHours * 3600)
  }

  function Fetched(pages: Pages, from: nat, to: nat): seq<Event> {
    Walk(pages, from, to, MAX_PAGES, PAGE_LIMIT)
  }

  /** What a pass covers, if it moves the cursor. */
  function Covers(H: Hasher, cfg: Config, pages: Pages, cursor: Option<nat>, pass: Pass): Option<Covered> {
    var from := StartOf(cfg, cursor, pass);
    if !pass.io.loaded || pass.to <= from || !pass.io.connected then None
    else if Interrupted(pages, from, pass.to, PAGE_LIMIT, pass.io.failing) || !pass.io.saved then None
    else
      var events := Fetched(pages, from, pass.to);
      if events == [] then Some(Covered(from, pass.to, None))
      else
        match Anchor(H, events, Some(cfg.maxSize), Some(pass.to))
        case Err(_) => None
        case Ok(p) => if pass.io.verified then Some(Covered(from, p.toTs, Some(p))) else None
  }

  /** The cursor after a pass: the end of what it covered, else where it was. */
  function Moved(cursor: Option<nat>, covered: Option<Covered>): Option<nat> {
    if covered.Some? then Some(covered.value.to) else cursor
  }

  function EventsOf(w: Covered): seq<Event> {
    if w.package.Some? then w.package.value.events else []
  }

  class Daemon {
    const cfg: Config
    const hasher: Hasher
    var cursor: Option<nat>

    constructor (cfg: Config, hasher: Hasher, saved: Option<nat>)
      ensures this.cfg == cfg && this.hasher == hasher && cursor == saved
    {
      this.cfg, this.hasher, cursor := cfg, hasher, saved;
    }

    /** `run_channel`. */
    method RunChannel(pages: Pages, pass: Pass) returns (covered: Option<Covered>)
      modifies this
      ensures covered == Covers(hasher, cfg, pages, old(cursor), pass)
      ensures cursor == Moved(old(cursor), covered)
    {
      hide Walk, RequestsMade, Anchor;
      if !pass.io.loaded {
        return None;
      }
      var from := if cursor.Some? then cursor.value else SubSat(pass.now, cfg.bootstrapHours * 3600);
      if pass.to <= from || !pass.io.connected {
        return None;
      }
      var fetched := FetchWindow(pages, from, pass.to, PAGE_LIMIT, pass.io.failing);
      if fetched.Err? {
        return None;
      }
      if fetched.value == [] {
        if pass.io.saved {
          cursor := Some(pass.to);
          covered := Some(Covered(from, pass.to, None));
        } else {
          covered := None;
        }
        return;
      }
      var r := BuildPackage(hasher, fetched.value, Some(cfg.maxSize), Some(pass.to));
      if r.Err? || !pass.io.verified || !pass.io.saved {
        return None;
      }
      cursor := Some(r.value.toTs);
      return Some(Covered(from, r.value.toTs, Some(r.value)));
    }
  }

  // ----- when a pass moves the cursor -----

  /** A pass moves the cursor iff its state loaded, its end is above its start, the relay was
      reached and no request it made failed, the new state was saved, and the window is
      empty or its package was built and read back. It then covers its window, as far as
      the package goes, and otherwise leaves the cursor where it was. */
  lemma PassMovesIff(H: Hasher, cfg: Config, pages: Pages, cursor: Option<nat>, pass: Pass)
    ensures var from := if cursor.Some? then cursor.value else SubSat(pass.now, cfg.bootstrapHours * 3600);
            var fetched := Walk(pages, from, pass.to, MAX_PAGES, PAGE_LIMIT);
            var built := Anchor(H, fetched, Some(cfg.maxSize), Some(pass.to));
            var covered := Covers(H, cfg, pages, cursor, pass);
            && (covered.Some? <==>
                && pass.io.loaded && from < pass.to && pass.io.connected && pass.io.saved
                && (forall i <- pass.io.failing :: i >= RequestsMade(pages, from, pass.to, MAX_PAGES, PAGE_LIMIT))
                && (fetched == [] || (built.Ok? && pass.io.verified)))
            && (covered.Some? ==>
                  covered.value ==
                  if fetched == [] then Covered(from, pass.to, None)
                  else Covered(from, built.value.toTs, Some(built.value)))
            && Moved(cursor, covered) == (if covered.Some? then Some(covered.value.to) else cursor)
  {
    hide Walk, Anchor, RequestsMade;
  }

  /** Pass `k` of the run moved the cursor over `w`; with a package, its anchor read back. */
  ghost predicate CoveredBy(H: Hasher, cfg: Config, pages: Pages, cursor: Option<nat>, passes: seq<Pass>, k: nat,
                            w: Covered)
  {
    && k < |passes| && passes[k].io.saved && (w.package.Some? ==> passes[k].io.verified)
    && Covers(H, cfg, pages, CursorAfter(H, cfg, pages, cursor, passes[..k]), passes[k]) == Some(w)
  }

  /** Over any run every window is that of a pass that saved its state and, when there was
      something to anchor, saw its anchor read back. */
  lemma {:induction false} WindowsAreAnchored(H: Hasher, cfg: Config, pages: Pages, cursor: Option<nat>,
                                              passes: seq<Pass>, i: nat)
      returns (k: nat)
    requires i < |Windows(H, cfg, pages, cursor, passes)|
    ensures CoveredBy(H, cfg, pages, cursor, passes, k, Windows(H, cfg, pages, cursor, passes)[i])
    decreases |passes|
  {
    hide Covers;
    var n := |passes| - 1;
    var before := Windows(H, cfg, pages, cursor, passes[..n]);
    if i < |before| {
      k := WindowsAreAnchored(H, cfg, pages, cursor, passes[..n], i);
      assert passes[..n][..k] == passes[..k] && passes[..n][k] == passes[k];
    } else {
      k := n;
      PassMovesIff(H, cfg, pages, CursorAfter(H, cfg, pages, cursor, passes[..n]), passes[n]);
    }
  }

  /** And a pass that covers nothing leaves the cursor where it was. */
  lemma UncoveredStays(H: Hasher, cfg: Config, pages: Pages, cursor: Option<nat>, passes: seq<Pass>, k: nat)
    requires k < |passes|
    requires Covers(H, cfg, pages, CursorAfter(H, cfg, pages, cursor, passes[..k]), passes[k]).None?
    ensures CursorAfter(H, cfg, pages, cursor, passes[..k + 1]) == CursorAfter(H, cfg, pages, cursor, passes[..k])
    ensures Windows(H, cfg, pages, cursor, passes[..k + 1]) == Windows(H, cfg, pages, cursor, passes[..k])
  {
    hide Covers;
    assert passes[..k + 1][..k] == passes[..k];
  }

  // ----- one pass -----

  /** The channel's events are fixed, ids determine them, and the relay serves them. */
  ghost predicate Steady(all: seq<Event>, pages: Pages) {
    Functional(all) && Serves(all, PAGE_LIMIT, pages)
  }

  /** The pass's pages split no second and suffice. */
  ghost predicate CleanPass(cfg: Config, all: seq<Event>, pages: Pages, cursor: Option<nat>, pass: Pass) {
    Clean(all, pages, StartOf(cfg, cursor, pass), pass.to, MAX_PAGES, PAGE_LIMIT)
  }

  lemma FetchedIsWindow(all: seq<Event>, pages: Pages, from: nat, to: nat, e: Event)
    requires Steady(all, pages) && Clean(all, pages, from, to, MAX_PAGES, PAGE_LIMIT)
    ensures e in Fetched(pages, from, to) <==> e in all && Within(e, from, to)
  {
    hide Walk, Clean, Serves;
    CompleteIffClean(all, pages, from, to, MAX_PAGES, PAGE_LIMIT);
    if e in Fetched(pages, from, to) {
      WalkHolds(all, pages, from, to, MAX_PAGES, PAGE_LIMIT, e);
    }
  }

  /** A pass that covers a window covers all of it: the cursor strictly advances, never
      past the requested end, and the package is exactly the window's events, in order,
      each once. */
  lemma PassCovers(H: Hasher, cfg: Config, all: seq<Event>, pages: Pages, cursor: Option<nat>, pass: Pass)
    requires Steady(all, pages) && CleanPass(cfg, all, pages, cursor, pass)
    requires Covers(H, cfg, pages, cursor, pass).Some?
    ensures var w := Covers(H, cfg, pages, cursor, pass).value;
            w.from == StartOf(cfg, cursor, pass) && w.to <= pass.to && Exact(all, w)
  {
    hide Walk, Clean, Serves, Anchor, Ordered, SizeOf, Package.Before, Boundary;
    var from := StartOf(cfg, cursor, pass);
    var w := Covers(H, cfg, pages, cursor, pass).value;
    var events := Fetched(pages, from, pass.to);
    forall e
      ensures e in events <==> e in all && Within(e, from, pass.to)
    {
      FetchedIsWindow(all, pages, from, pass.to, e);
    }
    if events != [] {
      FetchedFunctional(all, events);
      PackageOfWindow(H, all, events, cfg.maxSize, from, pass.to);
    }
  }

  /** The package of a window is exactly the channel's events in it. */
  ghost predicate Holds(all: seq<Event>, w: Covered) {
    forall e :: e in EventsOf(w) <==> e in all && Within(e, w.from, w.to)
  }

  lemma FetchedFunctional(all: seq<Event>, events: seq<Event>)
    requires Functional(all) && (forall e <- events :: e in all)
    ensures Functional(events)
  {
  }

  lemma PackageOfWindow(H: Hasher, all: seq<Event>, events: seq<Event>, max: nat, from: nat, to: nat)
    requires events != [] && Functional(events) && (forall e :: e in events <==> e in all && Within(e, from, to))
    requires Anchor(H, events, Some(max), Some(to)).Ok?
    ensures var p := Anchor(H, events, Some(max), Some(to)).value;
            && from < p.toTs <= to && Holds(all, Covered(from, p.toTs, Some(p))) && Sorted(Package.Before, p.events)
  {
    hide Anchor, Ordered, SizeOf, Package.Before, Boundary, Functional;
    var p := Anchor(H, events, Some(max), Some(to)).value;
    PackageEnd(H, events, Some(max), to);
    forall e
      ensures e in p.events <==> e in events && e.createdAt < p.toTs
    {
      PackageCovers(H, events, Some(max), Some(to), e);
    }
    PackageCovers(H, events, Some(max), Some(to), events[0]);
    assert p.events[0] in p.events;
  }

  // ----- runs -----

  /** The windows covered by a run of passes, in order. */
  function Windows(H: Hasher, cfg: Config, pages: Pages, cursor: Option<nat>, passes: seq<Pass>): seq<Covered> {
    if passes == [] then []
    else
      var n := |passes| - 1;
      var before := Windows(H, cfg, pages, cursor, passes[..n]);
      var covered := Covers(H, cfg, pages, CursorAfter(H, cfg, pages, cursor, passes[..n]), passes[n]);
      if covered.Some? then before + [covered.value] else before
  }

  function CursorAfter(H: Hasher, cfg: Config, pages: Pages, cursor: Option<nat>, passes: seq<Pass>): Option<nat> {
    if passes == [] then cursor
    else
      var n := |passes| - 1;
      var before := CursorAfter(H, cfg, pages, cursor, passes[..n]);
      Moved(before, Covers(H, cfg, pages, before, passes[n]))
  }

  ghost predicate CleanRun(H: Hasher, cfg: Config, all: seq<Event>, pages: Pages, cursor: Option<nat>,
                           passes: seq<Pass>) {
    forall i :: 0 <= i < |passes| ==>
      CleanPass(cfg, all, pages, CursorAfter(H, cfg, pages, cursor, passes[..i]), passes[i])
  }

  lemma RunStep(H: Hasher, cfg: Config, pages: Pages, cursor: Option<nat>, passes: seq<Pass>)
    requires passes != []
    ensures var n := |passes| - 1;
            var at := CursorAfter(H, cfg, pages, cursor, passes[..n]);
            var covered := Covers(H, cfg, pages, at, passes[n]);
            && CursorAfter(H, cfg, pages, cursor, passes) == Moved(at, covered)
            && Windows(H, cfg, pages, cursor, passes) ==
               Windows(H, cfg, pages, cursor, passes[..n]) + (if covered.Some? then [covered.value] else [])
  {
    hide Covers;
  }

  lemma CleanRunStep(H: Hasher, cfg: Config, all: seq<Event>, pages: Pages, cursor: Option<nat>, passes: seq<Pass>)
    requires passes != [] && CleanRun(H, cfg, all, pages, cursor, passes)
    ensures var n := |passes| - 1;
            && CleanRun(H, cfg, all, pages, cursor, passes[..n])
            && CleanPass(cfg, all, pages, CursorAfter(H, cfg, pages, cursor, passes[..n]), passes[n])
  {
    hide CursorAfter, CleanPass;
    assert forall i :: 0 <= i < |passes| - 1 ==> passes[..|passes| - 1][..i] == passes[..i];
  }

  ghost predicate Adjacent(ws: seq<Covered>) {
    forall i :: 0 <= i < |ws| - 1 ==> ws[i].to == ws[i + 1].from
  }

  /** The window is not empty, and its package is exactly the channel's events in it, in
      order and each once. */
  ghost predicate Exact(all: seq<Event>, w: Covered) {
    w.from < w.to && Holds(all, w) && Sorted(Package.Before, EventsOf(w))
  }

  /** Adjacent exact windows from `start`, if there is one, to `end`. */
  ghost predicate Tile(all: seq<Event>, start: Option<nat>, ws: seq<Covered>, end: Option<nat>) {
    && Adjacent(ws) && (forall w <- ws :: Exact(all, w))
    && end == (if ws == [] then start else Some(ws[|ws| - 1].to))
    && (ws != [] && start.Some? ==> ws[0].from == start.value)
  }

  lemma TileGrows(all: seq<Event>, start: Option<nat>, ws: seq<Covered>, end: Option<nat>, w: Covered)
    requires Tile(all, start, ws, end) && Exact(all, w) && (end.Some? ==> w.from == end.value)
    ensures Tile(all, start, ws + [w], Some(w.to))
  {
    hide Exact;
    forall x <- ws + [w]
      ensures Exact(all, x)
    {
      assert x in ws || x == w;
    }
  }

  /** Windows tile time: in a run over a fixed channel whose pages split no second, the
      windows are adjacent, half-open and not empty, the cursor stands at the end of the
      last, and each window's package is exactly the channel's events in it. */
  lemma {:induction false} WindowsTile(H: Hasher, cfg: Config, all: seq<Event>, pages: Pages, cursor: Option<nat>,
                                       passes: seq<Pass>)
    requires Steady(all, pages) && CleanRun(H, cfg, all, pages, cursor, passes)
    ensures Tile(all, cursor, Windows(H, cfg, pages, cursor, passes), CursorAfter(H, cfg, pages, cursor, passes))
    decreases |passes|
  {
    if passes != [] {
      hide Covers, Steady, CleanPass, CleanRun, Exact, Tile, Windows, CursorAfter;
      var n := |passes| - 1;
      var ws := Windows(H, cfg, pages, cursor, passes[..n]);
      var at := CursorAfter(H, cfg, pages, cursor, passes[..n]);
      RunStep(H, cfg, pages, cursor, passes);
      CleanRunStep(H, cfg, all, pages, cursor, passes);
      WindowsTile(H, cfg, all, pages, cursor, passes[..n]);
      var covered := Covers(H, cfg, pages, at, passes[n]);
      if covered.Some? {
        PassCovers(H, cfg, all, pages, at, passes[n]);
        TileGrows(all, cursor, ws, at, covered.value);
      } else {
        assert ws + [] == ws;
      }
    }
  }

  lemma {:induction false} WindowsAscend(ws: seq<Covered>, i: nat, j: nat)
    requires Adjacent(ws) && (forall w <- ws :: w.from < w.to) && i < j < |ws|
    ensures ws[i].to <= ws[j].from
    decreases j
  {
    if i + 1 < j {
      WindowsAscend(ws, i, j - 1);
    }
  }

  lemma {:induction false} SomeWindowHolds(ws: seq<Covered>, t: nat) returns (i: nat)
    requires Adjacent(ws) && ws != [] && ws[0].from <= t < ws[|ws| - 1].to
    ensures i < |ws| && ws[i].from <= t < ws[i].to
    decreases |ws|
  {
    var n := |ws| - 1;
    if ws[n].from <= t {
      i := n;
    } else {
      i := SomeWindowHolds(ws[..n], t);
    }
  }

  /** Every event between the start and the cursor is in exactly one package, and no
      other event is in any. */
  lemma EveryEventOnce(H: Hasher, cfg: Config, all: seq<Event>, pages: Pages, cursor: Option<nat>, passes: seq<Pass>,
                       e: Event)
    requires Steady(all, pages) && CleanRun(H, cfg, all, pages, cursor, passes)
    ensures var ws := Windows(H, cfg, pages, cursor, passes);
            && ((exists i :: 0 <= i < |ws| && e in EventsOf(ws[i])) <==>
                e in all && ws != [] && Within(e, ws[0].from, ws[|ws| - 1].to))
            && (forall i, j :: 0 <= i < j < |ws| && e in EventsOf(ws[i]) ==> e !in EventsOf(ws[j]))
  {
    hide Windows, Steady, CleanRun, EventsOf, CursorAfter, Package.Before;
    var ws := Windows(H, cfg, pages, cursor, passes);
    WindowsTile(H, cfg, all, pages, cursor, passes);
    forall i, j | 0 <= i < j < |ws| && e in EventsOf(ws[i])
      ensures e !in EventsOf(ws[j])
    {
      assert ws[i] in ws && ws[j] in ws;
      WindowsAscend(ws, i, j);
    }
    forall i | 0 <= i < |ws| && e in EventsOf(ws[i])
      ensures e in all && Within(e, ws[0].from, ws[|ws| - 1].to)
    {
      assert ws[i] in ws && ws[0] in ws && ws[|ws| - 1] in ws;
      if i > 0 { WindowsAscend(ws, 0, i); }
      if i < |ws| - 1 { WindowsAscend(ws, i, |ws| - 1); }
    }
    if e in all && ws != [] && Within(e, ws[0].from, ws[|ws| - 1].to) {
      var i := SomeWindowHolds(ws, e.createdAt);
      assert ws[i] in ws;
      assert e in EventsOf(ws[i]);
    }
  }

  // ----- end to end -----

  lemma RelayIdsDetermineEvents(s: RelayStore.Store, channel: Bytes, all: seq<Event>)
    requires RelayStore.Valid(s) && (forall e <- all :: OfChannel(s, channel, e))
    ensures Functional(all)
  {
    hide RelayStore.Valid, RelayStore.Stored, HasTag;
    forall a, b | a in all && b in all && a.id == b.id
      ensures a == b
    {
      assert OfChannel(s, channel, a) && OfChannel(s, channel, b);
      RelayStore.SameIdSameEvent(s, a, b);
    }
  }

  /** From relay to anchors: over a relay store built by puts, whose events name at most
      one channel each, every event of the channel between the start and the cursor is in
      exactly one package, and no other event is in any. */
  lemma RelayAnchoredOnce(H: Hasher, cfg: Config, s: RelayStore.Store, channel: Bytes, all: seq<Event>,
                          cursor: Option<nat>, passes: seq<Pass>, e: Event)
    requires RelayStore.Valid(s) && (forall r <- s.events :: OneValue(r.1.tags, H_TAG))
    requires forall x :: x in all <==> OfChannel(s, channel, x)
    requires forall x <- all :: !RelayStore.AtTop(x)
    requires CleanRun(H, cfg, all, RelayPages(s, channel, PAGE_LIMIT), cursor, passes)
    ensures var ws := Windows(H, cfg, RelayPages(s, channel, PAGE_LIMIT), cursor, passes);
            && ((exists i :: 0 <= i < |ws| && e in EventsOf(ws[i])) <==>
                OfChannel(s, channel, e) && ws != [] && Within(e, ws[0].from, ws[|ws| - 1].to))
            && (forall i, j :: 0 <= i < j < |ws| && e in EventsOf(ws[i]) ==> e !in EventsOf(ws[j]))
  {
    hide RelayStore.Valid, OneValue, OfChannel, RelayStore.AtTop, CleanRun, Windows, EventsOf, RelayPages, Serves,
         Functional;
    RelayIdsDetermineEvents(s, channel, all);
    RelayServes(s, channel, all, PAGE_LIMIT);
    EveryEventOnce(H, cfg, all, RelayPages(s, channel, PAGE_LIMIT), cursor, passes, e);
  }
}
