/** Anchor packages: a fetched window is deduplicated, ordered, cut to whole seconds that
    fit a size cap, and committed to by a Merkle root. */
module Package {
  import opened Common
  import opened Ordering
  import opened Merkle
  import opened Events
  import Hex

  datatype PackageError = EmptyWindow | BadEventId(id: Bytes) | FirstSecondTooLarge

  /** The count and the first and last ids of the source's record are those of `events`. */
  datatype AnchorPackage = AnchorPackage(root: Hash, events: seq<Event>, sizeBytes: nat, fromTs: nat, toTs: nat,
                                         truncated: bool)

  predicate GoodId(e: Event) {
    |e.id| == 64 && (forall c <- e.id :: Hex.DigitValue(c).Some?)
  }

  lemma {:induction false} DigitsDecode(s: Bytes)
    requires |s| % 2 == 0 && (forall c <- s :: Hex.DigitValue(c).Some?)
    ensures Hex.Decode(s).Some? && 2 * |Hex.Decode(s).value| == |s|
    decreases |s|
  {
    if s != [] {
      assert s[0] in s && s[1] in s;
      DigitsDecode(s[2..]);
    }
  }

  lemma {:induction false} DecodedAreDigits(s: Bytes)
    requires Hex.Decode(s).Some?
    ensures |s| == 2 * |Hex.Decode(s).value| && (forall c <- s :: Hex.DigitValue(c).Some?)
    decreases |s|
  {
    if s != [] {
      DecodedAreDigits(s[2..]);
      assert s == [s[0], s[1]] + s[2..];
    }
  }

  /** An id passes the check iff it decodes to 32 bytes, so the second id error never
      occurs. */
  lemma GoodIdDecodes(e: Event)
    ensures GoodId(e) <==> Hex.Decode(e.id).Some? && |Hex.Decode(e.id).value| == 32
    ensures GoodId(e) ==> Hex.Decode(e.id) == Some(IdBytes(e))
  {
    if GoodId(e) {
      DigitsDecode(e.id);
    }
    if Hex.Decode(e.id).Some? {
      DecodedAreDigits(e.id);
    }
  }

  function IdBytes(e: Event): Bytes {
    match Hex.Decode(e.id)
    case Some(b) => b
    case None => []
  }

  // ----- deduplication and order -----

  predicate Before(a: Event, b: Event) {
    a.createdAt < b.createdAt || (a.createdAt == b.createdAt && Less(a.id, b.id))
  }

  lemma BeforeAsymmetric(a: Event, b: Event)
    requires Before(a, b)
    ensures !Before(b, a)
  {
    if a.createdAt == b.createdAt {
      LessAsymmetric(a.id, b.id);
    }
  }

  lemma BeforeTransitive(a: Event, b: Event, c: Event)
    requires Before(a, b) && Before(b, c)
    ensures Before(a, c)
  {
    if a.createdAt == c.createdAt {
      LessTransitive(a.id, b.id, c.id);
    }
  }

  function Place(o: seq<Event>, e: Event): seq<Event> {
    if o == [] || Before(o[|o| - 1], e) then o + [e] else Place(o[..|o| - 1], e) + [o[|o| - 1]]
  }

  function DropId(o: seq<Event>, id: Bytes): seq<Event> {
    if o == [] then []
    else DropId(o[..|o| - 1], id) + (if o[|o| - 1].id == id then [] else [o[|o| - 1]])
  }

  /** One event per id, the last one seen, by (time, id). */
  function Ordered(events: seq<Event>): seq<Event> {
    if events == [] then []
    else
      var n := |events| - 1;
      Place(DropId(Ordered(events[..n]), events[n].id), events[n])
  }

  lemma {:induction false} PlaceHolds(o: seq<Event>, e: Event, x: Event)
    ensures x in Place(o, e) <==> x in o || x == e
    decreases |o|
  {
    if o != [] && !Before(o[|o| - 1], e) {
      PlaceHolds(o[..|o| - 1], e, x);
      assert o == o[..|o| - 1] + [o[|o| - 1]];
    }
  }

  lemma {:induction false} PlaceSorts(o: seq<Event>, e: Event)
    requires Sorted(Before, o) && (forall x <- o :: x.id != e.id)
    ensures Sorted(Before, Place(o, e))
    decreases |o|
  {
    hide Less;
    if o != [] {
      var n := |o| - 1;
      var before, last := o[..n], o[n];
      assert o == before + [last];
      if Before(last, e) {
        forall i | 0 <= i < n
          ensures Before(o[i], e)
        {
          BeforeTransitive(o[i], last, e);
        }
      } else {
        LessTotal(last.id, e.id);
        PlaceSorts(before, e);
        var inner := Place(before, e);
        forall i | 0 <= i < |inner|
          ensures Before(inner[i], last)
        {
          PlaceHolds(before, e, inner[i]);
        }
      }
    }
  }

  lemma {:induction false} DropIdHolds(o: seq<Event>, id: Bytes, x: Event)
    ensures x in DropId(o, id) <==> x in o && x.id != id
    decreases |o|
  {
    if o != [] {
      DropIdHolds(o[..|o| - 1], id, x);
      assert o == o[..|o| - 1] + [o[|o| - 1]];
    }
  }

  lemma {:induction false} DropIdSorts(o: seq<Event>, id: Bytes)
    requires Sorted(Before, o)
    ensures Sorted(Before, DropId(o, id))
    decreases |o|
  {
    if o != [] {
      hide Before;
      var n := |o| - 1;
      DropIdSorts(o[..n], id);
      var kept := DropId(o[..n], id);
      forall i | 0 <= i < |kept|
        ensures Before(kept[i], o[n])
      {
        DropIdHolds(o[..n], id, kept[i]);
      }
    }
  }

  /** `e` is the last event seen with its id. */
  ghost predicate LastSeen(events: seq<Event>, e: Event) {
    exists i :: 0 <= i < |events| && events[i] == e && NotAfter(events, i, e.id)
  }

  ghost predicate NotAfter(events: seq<Event>, i: nat, id: Bytes) {
    forall j :: i < j < |events| ==> events[j].id != id
  }

  lemma LastSeenStep(events: seq<Event>, e: Event)
    requires events != []
    ensures var n := |events| - 1;
            LastSeen(events, e) <==> e == events[n] || (LastSeen(events[..n], e) && events[n].id != e.id)
  {
    var n := |events| - 1;
    if LastSeen(events[..n], e) && events[n].id != e.id {
      var i: nat :| i < n && events[..n][i] == e && NotAfter(events[..n], i, e.id);
      assert events[i] == e && NotAfter(events, i, e.id);
    }
    if LastSeen(events, e) && e != events[n] {
      var i: nat :| i < |events| && events[i] == e && NotAfter(events, i, e.id);
      assert events[..n][i] == e && NotAfter(events[..n], i, e.id);
    }
    assert NotAfter(events, n, events[n].id);
  }

  lemma {:induction false} OrderedHolds(events: seq<Event>, e: Event)
    ensures e in Ordered(events) <==> LastSeen(events, e)
    decreases |events|
  {
    if events != [] {
      hide LastSeen;
      var n := |events| - 1;
      OrderedHolds(events[..n], e);
      LastSeenStep(events, e);
      DropIdHolds(Ordered(events[..n]), events[n].id, e);
      PlaceHolds(DropId(Ordered(events[..n]), events[n].id), events[n], e);
    }
  }

  lemma {:induction false} OrderedSorts(events: seq<Event>)
    ensures Sorted(Before, Ordered(events))
    decreases |events|
  {
    if events != [] {
      hide Before;
      var n := |events| - 1;
      OrderedSorts(events[..n]);
      var o := Ordered(events[..n]);
      DropIdSorts(o, events[n].id);
      forall x <- DropId(o, events[n].id)
        ensures x.id != events[n].id
      {
        DropIdHolds(o, events[n].id, x);
      }
      PlaceSorts(DropId(o, events[n].id), events[n]);
    }
  }

  /** An id determines its event. */
  ghost predicate Functional(events: seq<Event>) {
    forall a, b :: a in events && b in events && a.id == b.id ==> a == b
  }

  lemma {:induction false} FunctionalLastSeen(events: seq<Event>, e: Event)
    requires Functional(events)
    ensures LastSeen(events, e) <==> e in events
    decreases |events|
  {
    if events != [] {
      hide LastSeen;
      var n := |events| - 1;
      assert events == events[..n] + [events[n]];
      FunctionalLastSeen(events[..n], e);
      LastSeenStep(events, e);
    }
  }

  // ----- the cut -----

  function SizeOf(o: seq<Event>): nat {
    if o == [] then 0 else SizeOf(o[..|o| - 1]) + |o[|o| - 1].content|
  }

  /** The first `k` events end with a whole second. */
  predicate Boundary(o: seq<Event>, k: nat) {
    0 < k <= |o| && (k == |o| || o[k].createdAt != o[k - 1].createdAt)
  }

  /** The largest of the first `k` prefixes that ends a second and fits; 0 when none. */
  function Largest(o: seq<Event>, max: nat, k: nat): (cut: nat)
    requires k <= |o|
    ensures cut <= k
  {
    if k == 0 then 0
    else if Boundary(o, k) && SizeOf(o[..k]) <= max then k
    else Largest(o, max, k - 1)
  }

  function Cut(o: seq<Event>, max: Option<nat>): (cut: nat)
    ensures cut <= |o|
  {
    if max.None? then |o| else Largest(o, max.value, |o|)
  }

  lemma {:induction false} LargestIsLargest(o: seq<Event>, max: nat, k: nat)
    requires k <= |o|
    ensures var cut := Largest(o, max, k);
            && (cut > 0 ==> Boundary(o, cut) && SizeOf(o[..cut]) <= max)
            && (forall j :: cut < j <= k && Boundary(o, j) ==> SizeOf(o[..j]) > max)
    decreases k
  {
    if k > 0 {
      LargestIsLargest(o, max, k - 1);
    }
  }

  lemma {:induction false} SizeMonotone(o: seq<Event>, j: nat, k: nat)
    requires j <= k <= |o|
    ensures SizeOf(o[..j]) <= SizeOf(o[..k])
    decreases k
  {
    if j < k {
      assert o[..k][..k - 1] == o[..k - 1];
      SizeMonotone(o, j, k - 1);
    }
  }

  lemma {:induction false} NoneFits(o: seq<Event>, max: nat, j: nat, k: nat)
    requires j <= k <= |o| && (j < k ==> SizeOf(o[..j + 1]) > max)
    ensures Largest(o, max, k) == Largest(o, max, j)
    decreases k
  {
    if j < k {
      SizeMonotone(o, j + 1, k);
      NoneFits(o, max, j, k - 1);
    }
  }

  /** Where the second that `o[k]` belongs to ends. */
  function SecondEnd(o: seq<Event>, k: nat): (end: nat)
    requires k < |o|
    ensures k < end && Boundary(o, end) && (forall j :: k < j < end ==> !Boundary(o, j))
    decreases |o| - k
  {
    if k + 1 == |o| || o[k + 1].createdAt != o[k].createdAt then k + 1 else SecondEnd(o, k + 1)
  }

  /** Nothing can be anchored iff the first second alone exceeds the cap. */
  lemma RefusedIffFirstSecondTooLarge(o: seq<Event>, max: nat)
    requires o != []
    ensures Largest(o, max, |o|) == 0 <==> SizeOf(o[..SecondEnd(o, 0)]) > max
  {
    hide SizeOf, Largest, SecondEnd;
    var first, cut := SecondEnd(o, 0), Largest(o, max, |o|);
    LargestIsLargest(o, max, |o|);
    if cut > 0 {
      SizeMonotone(o, first, cut);
    }
  }

  /** The source's loop: stop at the first event that no longer fits. */
  method FindCut(o: seq<Event>, max: nat) returns (cut: nat)
    ensures cut == Largest(o, max, |o|)
  {
    var total := 0;
    cut := 0;
    assert o[..0] == [];
    for i := 0 to |o|
      invariant total == SizeOf(o[..i]) && total <= max && cut == Largest(o, max, i)
    {
      var next := total + |o[i].content|;
      assert o[..i + 1][..i] == o[..i];
      if next > max {
        NoneFits(o, max, i, |o|);
        return;
      }
      total := next;
      if i + 1 == |o| || o[i + 1].createdAt != o[i].createdAt {
        cut := i + 1;
      }
    }
  }

  // ----- the package -----

  predicate Keeps(o: seq<Event>, id: Bytes) {
    exists e <- o :: e.id == id
  }

  /** The earliest event whose id was not kept. */
  function FirstLeftOut(events: seq<Event>, kept: seq<Event>): Option<nat> {
    if events == [] then None
    else
      var n := |events| - 1;
      var rest := FirstLeftOut(events[..n], kept);
      if Keeps(kept, events[n].id) then rest
      else if rest.Some? && rest.value <= events[n].createdAt then rest
      else Some(events[n].createdAt)
  }

  function FirstBad(events: seq<Event>): Option<Bytes> {
    if events == [] then None
    else
      var n := |events| - 1;
      if FirstBad(events[..n]).Some? then FirstBad(events[..n])
      else if GoodId(events[n]) then None
      else Some(events[n].id)
  }

  function EndOf(events: seq<Event>, kept: seq<Event>, truncated: bool, claimedTo: Option<nat>): nat
    requires kept != []
  {
    var after := kept[|kept| - 1].createdAt + 1;
    if truncated then
      var left := FirstLeftOut(events, kept);
      if left.Some? then left.value else after
    else if claimedTo.Some? then Max(claimedTo.value, after)
    else after
  }

  function Ids(o: seq<Event>): seq<Bytes> {
    seq(|o|, i requires 0 <= i < |o| => IdBytes(o[i]))
  }

  function Packed(H: Hasher, events: seq<Event>, kept: seq<Event>, truncated: bool,
                  claimedTo: Option<nat>): AnchorPackage
    requires kept != []
  {
    AnchorPackage(TreeHash(H, Leaves(H, Ids(kept))), kept, SizeOf(kept), kept[0].createdAt,
                  EndOf(events, kept, truncated, claimedTo), truncated)
  }

  /** `anchor_package`. */
  function Anchor(H: Hasher, events: seq<Event>, max: Option<nat>, claimedTo: Option<nat>): Result<AnchorPackage,
                  PackageError> {
    if events == [] then Err(EmptyWindow)
    else if FirstBad(events).Some? then Err(BadEventId(FirstBad(events).value))
    else
      OrderedNonEmpty(events);
      var o := Ordered(events);
      var cut := Cut(o, max);
      if cut == 0 then Err(FirstSecondTooLarge)
      else Ok(Packed(H, events, o[..cut], cut < |o|, claimedTo))
  }

  lemma OrderedNonEmpty(events: seq<Event>)
    requires events != []
    ensures Ordered(events) != []
  {
    var n := |events| - 1;
    PlaceHolds(DropId(Ordered(events[..n]), events[n].id), events[n], events[n]);
  }

  // ----- what a package covers -----

  lemma {:induction false} FirstLeftOutIsMin(events: seq<Event>, kept: seq<Event>)
    ensures var r := FirstLeftOut(events, kept);
            && (r.None? ==> forall e <- events :: Keeps(kept, e.id))
            && (r.Some? ==> (forall e <- events :: !Keeps(kept, e.id) ==> r.value <= e.createdAt)
                            && exists e <- events :: !Keeps(kept, e.id) && e.createdAt == r.value)
    decreases |events|
  {
    if events != [] {
      hide Keeps;
      var n := |events| - 1;
      FirstLeftOutIsMin(events[..n], kept);
      assert events == events[..n] + [events[n]];
      assert events[n] in events;
    }
  }

  /** In an ordered list a boundary parts the seconds. */
  lemma BoundaryParts(o: seq<Event>, k: nat, i: nat)
    requires Sorted(Before, o) && Boundary(o, k) && k < |o| && i < |o|
    ensures i < k <==> o[i].createdAt < o[k].createdAt
  {
    hide Less;
    assert Before(o[k - 1], o[k]);
    if i < k - 1 {
      assert Before(o[i], o[k - 1]);
    } else if i > k {
      assert Before(o[k], o[i]);
    }
  }

  lemma OrderedIsAll(events: seq<Event>, e: Event)
    requires Functional(events)
    ensures e in Ordered(events) <==> e in events
  {
    hide Ordered, LastSeen;
    OrderedHolds(events, e);
    FunctionalLastSeen(events, e);
  }

  lemma KeepsPrefix(events: seq<Event>, cut: nat, i: nat)
    requires Functional(events) && cut <= |Ordered(events)| && i < |Ordered(events)|
    ensures Keeps(Ordered(events)[..cut], Ordered(events)[i].id) <==> i < cut
  {
    hide Ordered, Before;
    var o := Ordered(events);
    OrderedSorts(events);
    OrderedIsAll(events, o[i]);
    if i < cut {
      assert o[..cut][i] == o[i];
    }
    forall j | 0 <= j < cut && o[j].id == o[i].id
      ensures j == i
    {
      OrderedIsAll(events, o[j]);
      if i < j { BeforeAsymmetric(o[i], o[j]); }
      if j < i { BeforeAsymmetric(o[j], o[i]); }
    }
  }

  /** A cut package ends where its first left-out event begins. */
  lemma CutEndsAtNext(events: seq<Event>, cut: nat, claimedTo: Option<nat>)
    requires Functional(events) && 0 < cut < |Ordered(events)| && Boundary(Ordered(events), cut)
    ensures EndOf(events, Ordered(events)[..cut], true, claimedTo) == Ordered(events)[cut].createdAt
  {
    hide Ordered, Boundary, FirstLeftOut, Before, Keeps;
    var o := Ordered(events);
    var kept := o[..cut];
    OrderedSorts(events);
    FirstLeftOutIsMin(events, kept);
    OrderedIsAll(events, o[cut]);
    KeepsPrefix(events, cut, cut);
    assert o[cut] in o && o[cut] in events;
    var first := FirstLeftOut(events, kept).value;
    var e :| e in events && !Keeps(kept, e.id) && e.createdAt == first;
    OrderedIsAll(events, e);
    var i :| 0 <= i < |o| && o[i] == e;
    KeepsPrefix(events, cut, i);
    BoundaryParts(o, cut, i);
  }

  /** A package holds, in order, exactly the window's events before its end; they fit,
      and no longer run of whole seconds does. */
  lemma PackageCovers(H: Hasher, events: seq<Event>, max: Option<nat>, claimedTo: Option<nat>, e: Event)
    requires Functional(events) && Anchor(H, events, max, claimedTo).Ok?
    ensures var p := Anchor(H, events, max, claimedTo).value;
            && Sorted(Before, p.events) && p.events <= Ordered(events) && p.events != []
            && (e in p.events <==> e in events && e.createdAt < p.toTs)
            && (max.Some? ==> SizeOf(p.events) <= max.value)
            && (forall j :: |p.events| < j <= |Ordered(events)| && Boundary(Ordered(events), j) ==>
                  max.Some? && SizeOf(Ordered(events)[..j]) > max.value)
  {
    hide Ordered, SizeOf, Largest, Before, Boundary, EndOf, TreeHash, Leaves;
    var o := Ordered(events);
    var cut := Cut(o, max);
    OrderedSorts(events);
    OrderedIsAll(events, e);
    if max.Some? {
      LargestIsLargest(o, max.value, |o|);
    }
    assert forall i :: 0 <= i < cut ==> o[..cut][i] == o[i];
    PackageParts(events, max, claimedTo, e);
  }

  lemma PackageParts(events: seq<Event>, max: Option<nat>, claimedTo: Option<nat>, e: Event)
    requires Functional(events)
    ensures var o := Ordered(events);
            var cut := Cut(o, max);
            cut > 0 ==> (e in o[..cut] <==> e in o && e.createdAt < EndOf(events, o[..cut], cut < |o|, claimedTo))
  {
    hide Ordered, SizeOf, Largest, Before, Boundary, FirstLeftOut;
    var o := Ordered(events);
    var cut := Cut(o, max);
    OrderedSorts(events);
    if 0 < cut < |o| {
      LargestIsLargest(o, max.value, |o|);
      CutEndsAtNext(events, cut, claimedTo);
      if e in o {
        var i :| 0 <= i < |o| && o[i] == e;
        BoundaryParts(o, cut, i);
        if i < cut {
          assert o[..cut][i] == e;
        }
      }
      if e in o[..cut] {
        var i :| 0 <= i < cut && o[..cut][i] == e;
        BoundaryParts(o, cut, i);
      }
    } else if cut == |o| && cut > 0 {
      assert o[..cut] == o;
      if e in o {
        var i :| 0 <= i < |o| && o[i] == e;
        NotLaterThanLast(o, i);
      }
    }
  }

  lemma NotLaterThanLast(o: seq<Event>, i: nat)
    requires Sorted(Before, o) && i < |o|
    ensures o[i].createdAt <= o[|o| - 1].createdAt
  {
    hide Less;
    assert i < |o| - 1 ==> Before(o[i], o[|o| - 1]);
  }

  /** Where a package of events before `to` ends: at `to` itself when nothing was left
      out, else at the time of an event left out. */
  lemma PackageEnd(H: Hasher, events: seq<Event>, max: Option<nat>, to: nat)
    requires Functional(events) && Anchor(H, events, max, Some(to)).Ok? && (forall e <- events :: e.createdAt < to)
    ensures var p := Anchor(H, events, max, Some(to)).value;
            && p.toTs <= to
            && (p.truncated <==> p.toTs < to)
            && (p.truncated ==> exists e <- events :: e.createdAt == p.toTs)
            && (forall e <- p.events :: e.createdAt < p.toTs)
  {
    hide Ordered, SizeOf, Largest, Before, FirstLeftOut, TreeHash, Leaves, Boundary;
    var p := Anchor(H, events, max, Some(to)).value;
    var o := Ordered(events);
    var cut := Cut(o, max);
    if cut < |o| {
      LargestIsLargest(o, max.value, |o|);
      CutEndsAtNext(events, cut, Some(to));
      OrderedIsAll(events, o[cut]);
    } else {
      OrderedIsAll(events, o[|o| - 1]);
      assert o[..cut] == o;
    }
    forall e <- p.events
      ensures e.createdAt < p.toTs
    {
      PackageCovers(H, events, max, Some(to), e);
    }
  }

  /** The two lists name the same ids, in the same order. */
  ghost predicate SameIds(a: seq<Event>, b: seq<Event>) {
    |a| == |b| && forall i :: 0 <= i < |a| ==> Hex.Decode(a[i].id) == Hex.Decode(b[i].id)
  }

  lemma IdsSpell(a: seq<Event>, b: seq<Event>)
    requires (forall e <- a :: GoodId(e)) && (forall e <- b :: GoodId(e))
    ensures Ids(a) == Ids(b) <==> SameIds(a, b)
  {
    hide GoodId, Hex.Decode;
    if Ids(a) == Ids(b) {
      forall i | 0 <= i < |a|
        ensures Hex.Decode(a[i].id) == Hex.Decode(b[i].id)
      {
        assert Ids(a)[i] == Ids(b)[i] && a[i] in a && b[i] in b;
        GoodIdDecodes(a[i]);
        GoodIdDecodes(b[i]);
      }
    }
  }

  lemma KeptAreGood(H: Hasher, events: seq<Event>, max: Option<nat>, claimedTo: Option<nat>)
    requires Anchor(H, events, max, claimedTo).Ok?
    ensures forall e <- Anchor(H, events, max, claimedTo).value.events :: GoodId(e)
  {
    hide GoodId, Ordered, TreeHash, Leaves, EndOf;
    FirstBadIsFirst(events);
    forall e <- Anchor(H, events, max, claimedTo).value.events
      ensures GoodId(e)
    {
      assert e in Ordered(events);
      OrderedHolds(events, e);
      LastSeenIsIn(events, e);
    }
  }

  lemma LastSeenIsIn(events: seq<Event>, e: Event)
    requires LastSeen(events, e)
    ensures e in events
  {
  }

  /** Two packages, of any windows, caps and ends, with one root commit to the same ids in
      the same order, or a collision is shown. */
  function SameRoot(H: Hasher, events: seq<Event>, max: Option<nat>, claimedTo: Option<nat>,
                    events': seq<Event>, max': Option<nat>, claimedTo': Option<nat>): (c: Option<Collision>)
    requires Anchor(H, events, max, claimedTo).Ok? && Anchor(H, events', max', claimedTo').Ok?
    requires Anchor(H, events, max, claimedTo).value.root == Anchor(H, events', max', claimedTo').value.root
    ensures c.None? ==>
            SameIds(Anchor(H, events, max, claimedTo).value.events, Anchor(H, events', max', claimedTo').value.events)
    ensures c.Some? ==> Breaks(H, c.value)
  {
    var p, q := Anchor(H, events, max, claimedTo).value.events, Anchor(H, events', max', claimedTo').value.events;
    KeptAreGood(H, events, max, claimedTo);
    KeptAreGood(H, events', max', claimedTo');
    IdsSpell(p, q);
    Compare(H, Ids(p), Ids(q))
  }

  /** All contents, one after the other. */
  ghost function Joined(o: seq<Event>): Bytes {
    if o == [] then [] else Joined(o[..|o| - 1]) + o[|o| - 1].content
  }

  lemma {:induction false} SizeIsJoined(o: seq<Event>)
    ensures SizeOf(o) == |Joined(o)|
    decreases |o|
  {
    if o != [] {
      SizeIsJoined(o[..|o| - 1]);
    }
  }

  /** What a package says of itself: it is a run of the window's events from the first one,
      starts at the earliest time of the whole window, counts the bytes of their contents,
      and is marked cut iff some were left out. */
  lemma PackageIsExact(H: Hasher, events: seq<Event>, max: Option<nat>, claimedTo: Option<nat>)
    requires Anchor(H, events, max, claimedTo).Ok?
    ensures var p, o := Anchor(H, events, max, claimedTo).value, Ordered(events);
            && p.events != [] && p.events <= o && (p.truncated <==> p.events != o)
            && (forall e <- o :: p.fromTs <= e.createdAt) && (exists e <- p.events :: e.createdAt == p.fromTs)
            && p.sizeBytes == |Joined(p.events)| && (max.Some? ==> p.sizeBytes <= max.value)
            && (!p.truncated ==>
                  var last := o[|o| - 1].createdAt;
                  p.toTs == Max(last + 1, if claimedTo.Some? then claimedTo.value else 0))
  {
    hide Ordered, SizeOf, Largest, Before, FirstLeftOut, TreeHash, Leaves, Joined;
    var p, o := Anchor(H, events, max, claimedTo).value, Ordered(events);
    OrderedNonEmpty(events);
    OrderedSorts(events);
    SizeIsJoined(p.events);
    if max.Some? {
      LargestIsLargest(o, max.value, |o|);
    }
    forall e <- o
      ensures p.fromTs <= e.createdAt
    {
      var i :| 0 <= i < |o| && o[i] == e;
      NotBeforeFirst(o, i);
    }
    assert p.events[0] in p.events;
    assert !p.truncated ==> o[..|o|] == o;
  }

  lemma NotBeforeFirst(o: seq<Event>, i: nat)
    requires Sorted(Before, o) && i < |o|
    ensures o[0].createdAt <= o[i].createdAt
  {
    hide Less;
    assert 0 < i ==> Before(o[0], o[i]);
  }

  lemma {:induction false} FirstBadIsFirst(events: seq<Event>)
    ensures FirstBad(events).None? <==> forall e <- events :: GoodId(e)
    ensures FirstBad(events).Some? ==>
            exists i ::
              && 0 <= i < |events| && !GoodId(events[i]) && FirstBad(events) == Some(events[i].id)
              && AllGood(events[..i])
    decreases |events|
  {
    if events != [] {
      hide GoodId;
      var n := |events| - 1;
      FirstBadIsFirst(events[..n]);
      assert events == events[..n] + [events[n]];
      if FirstBad(events[..n]).Some? {
        var i :| 0 <= i < n && !GoodId(events[..n][i]) && FirstBad(events[..n]) == Some(events[..n][i].id) &&
                 AllGood(events[..n][..i]);
        assert events[..n][..i] == events[..i] && events[..n][i] == events[i];
      } else {
        assert AllGood(events[..n]);
      }
    }
  }

  ghost predicate AllGood(events: seq<Event>) {
    forall e <- events :: GoodId(e)
  }

  /** Why a window is refused: it is empty; or the first bad id of it; or, all ids being
      good, its first second alone exceeds the cap. Otherwise it is packed. */
  lemma RefusedIff(H: Hasher, events: seq<Event>, max: Option<nat>, claimedTo: Option<nat>)
    ensures var r := Anchor(H, events, max, claimedTo);
            && (r == Err(EmptyWindow) <==> events == [])
            && (r.Err? && r.error.BadEventId? <==> !AllGood(events))
            && (r.Err? && r.error.BadEventId? ==>
                  exists i ::
                    && 0 <= i < |events| && !GoodId(events[i]) && r.error.id == events[i].id
                    && AllGood(events[..i]))
            && (r == Err(FirstSecondTooLarge) <==>
                && events != [] && AllGood(events) && max.Some? && Ordered(events) != []
                && |Joined(Ordered(events)[..SecondEnd(Ordered(events), 0)])| > max.value)
  {
    hide Ordered, SizeOf, Largest, Before, GoodId, FirstBad, Packed, Joined, SecondEnd;
    FirstBadIsFirst(events);
    if events != [] {
      OrderedNonEmpty(events);
      var o := Ordered(events);
      SizeIsJoined(o[..SecondEnd(o, 0)]);
      if max.Some? {
        RefusedIffFirstSecondTooLarge(o, max.value);
      }
    }
  }

  // ----- the computation as the source does it -----

  function Latest(events: seq<Event>): map<Bytes, Event> {
    if events == [] then map[] else Latest(events[..|events| - 1])[events[|events| - 1].id := events[|events| - 1]]
  }

  lemma {:induction false} LatestHolds(events: seq<Event>, e: Event)
    ensures e.id in Latest(events) && Latest(events)[e.id] == e <==> LastSeen(events, e)
    decreases |events|
  {
    if events != [] {
      hide LastSeen;
      LatestHolds(events[..|events| - 1], e);
      LastSeenStep(events, e);
    }
  }

  lemma {:induction false} LatestKeys(events: seq<Event>)
    ensures forall id <- Latest(events) :: Latest(events)[id].id == id
    decreases |events|
  {
    if events != [] {
      LatestKeys(events[..|events| - 1]);
    }
  }

  /** Deduplicate through a map, then sort what it holds. */
  method DedupeAndSort(events: seq<Event>) returns (o: seq<Event>)
    ensures o == Ordered(events)
  {
    hide LastSeen, Before, Place, Latest, Ordered;
    var uniq: map<Bytes, Event> := map[];
    assert Latest([]) == map[] by { LatestNone(); }
    for i := 0 to |events|
      invariant uniq == Latest(events[..i])
    {
      LatestNext(events[..i], events[i]);
      assert events[..i + 1] == events[..i] + [events[i]];
      uniq := uniq[events[i].id := events[i]];
    }
    assert events[..|events|] == events;
    LatestKeys(events);
    o := SortValues(uniq);
    forall e
      ensures e in o <==> e in Ordered(events)
    {
      LatestHolds(events, e);
      OrderedHolds(events, e);
    }
    OrderedSorts(events);
    SortedAlike(o, Ordered(events));
  }

  lemma LatestNone()
    ensures Latest([]) == map[]
  {
  }

  lemma LatestNext(events: seq<Event>, e: Event)
    ensures Latest(events + [e]) == Latest(events)[e.id := e]
  {
    assert (events + [e])[..|events|] == events;
  }

  lemma SortedAlike(a: seq<Event>, b: seq<Event>)
    requires Sorted(Before, a) && Sorted(Before, b) && (forall e :: e in a <==> e in b)
    ensures a == b
  {
    hide Before;
    forall x, y | Before(x, y)
      ensures !Before(y, x)
    {
      BeforeAsymmetric(x, y);
    }
    SortedUnique(Before, a, b);
  }

  method SortValues(uniq: map<Bytes, Event>) returns (o: seq<Event>)
    requires forall id <- uniq :: uniq[id].id == id
    ensures Sorted(Before, o) && (forall e :: e in o <==> e.id in uniq && uniq[e.id] == e)
  {
    hide Before, Place;
    o := [];
    var todo := uniq.Keys;
    while todo != {}
      invariant todo <= uniq.Keys && Sorted(Before, o)
      invariant forall e :: e in o <==> e.id in uniq && e.id !in todo && uniq[e.id] == e
      decreases |todo|
    {
      var id :| id in todo;
      PlaceSorts(o, uniq[id]);
      forall x
        ensures x in Place(o, uniq[id]) <==> x in o || x == uniq[id]
      {
        PlaceHolds(o, uniq[id], x);
      }
      o := Place(o, uniq[id]);
      todo := todo - {id};
    }
  }

  method CheckIds(events: seq<Event>) returns (bad: Option<Bytes>)
    ensures bad == FirstBad(events)
  {
    assert events[..0] == [];
    for i := 0 to |events|
      invariant FirstBad(events[..i]).None?
    {
      assert events[..i + 1][..i] == events[..i];
      if !GoodId(events[i]) {
        BadStays(events, i + 1, |events|);
        assert events[..|events|] == events;
        return Some(events[i].id);
      }
    }
    assert events[..|events|] == events;
    return None;
  }

  lemma {:induction false} BadStays(events: seq<Event>, j: nat, k: nat)
    requires j <= k <= |events| && FirstBad(events[..j]).Some?
    ensures FirstBad(events[..k]) == FirstBad(events[..j])
    decreases k
  {
    if j < k {
      BadStays(events, j, k - 1);
      assert events[..k][..k - 1] == events[..k - 1];
    }
  }

  method EarliestLeftOut(events: seq<Event>, kept: seq<Event>) returns (first: Option<nat>)
    ensures first == FirstLeftOut(events, kept)
  {
    first := None;
    assert events[..0] == [];
    for i := 0 to |events|
      invariant first == FirstLeftOut(events[..i], kept)
    {
      assert events[..i + 1][..i] == events[..i];
      if !Keeps(kept, events[i].id) && (first.None? || events[i].createdAt < first.value) {
        first := Some(events[i].createdAt);
      }
    }
    assert events[..|events|] == events;
  }

  method LeavesOf(H: Hasher, kept: seq<Event>) returns (leaves: seq<Hash>)
    ensures leaves == Leaves(H, Ids(kept))
  {
    leaves := [];
    for i := 0 to |kept|
      invariant leaves == Leaves(H, Ids(kept[..i]))
    {
      leaves := leaves + [LeafHash(H, IdBytes(kept[i]))];
    }
    assert kept[..|kept|] == kept;
  }

  method BuildPackage(H: Hasher, events: seq<Event>, max: Option<nat>, claimedTo: Option<nat>)
    returns (r: Result<AnchorPackage, PackageError>)
    ensures r == Anchor(H, events, max, claimedTo)
  {
    hide Ordered, Largest, FirstBad, FirstLeftOut, TreeHash, Leaves, SizeOf;
    if events == [] {
      return Err(EmptyWindow);
    }
    var bad := CheckIds(events);
    if bad.Some? {
      return Err(BadEventId(bad.value));
    }
    OrderedNonEmpty(events);
    var o := DedupeAndSort(events);
    var kept, truncated := o, false;
    if max.Some? {
      var cut := FindCut(o, max.value);
      if cut < |o| {
        truncated := true;
        if cut == 0 {
          return Err(FirstSecondTooLarge);
        }
        kept := o[..cut];
      }
    }
    assert kept == o[..Cut(o, max)];
    var end := kept[|kept| - 1].createdAt + 1;
    if truncated {
      var first := EarliestLeftOut(events, kept);
      if first.Some? {
        end := first.value;
      }
    } else if claimedTo.Some? && claimedTo.value > end {
      end := claimedTo.value;
    }
    var leaves := LeavesOf(H, kept);
    assert |leaves| == |kept| by { LeavesLength(H, kept); }
    var root := AnchorRoot(H, leaves);
    return Ok(AnchorPackage(root, kept, SizeOf(kept), kept[0].createdAt, end, truncated));
  }

  lemma LeavesLength(H: Hasher, kept: seq<Event>)
    ensures |Leaves(H, Ids(kept))| == |kept|
  {
  }
}
