/** The relay's event store: events by id, and an index ordered by channel, time and id. */
module RelayStore {
  import opened Common
  import opened Ordering
  import opened Events
  import opened Block
  import Hex

  // ----- ordered tables -----

  type Table<V> = seq<(Bytes, V)>

  predicate SortedTable<V>(t: Table<V>) {
    forall i, j :: 0 <= i < j < |t| ==> Less(t[i].0, t[j].0)
  }

  function Lookup<V>(t: Table<V>, key: Bytes): Option<V> {
    if t == [] then None
    else if t[|t| - 1].0 == key then Some(t[|t| - 1].1)
    else Lookup(t[..|t| - 1], key)
  }

  /** Insert a key the table does not hold. */
  function InsertRow<V>(t: Table<V>, key: Bytes, v: V): Table<V> {
    if t == [] || Less(t[|t| - 1].0, key) then t + [(key, v)]
    else InsertRow(t[..|t| - 1], key, v) + [t[|t| - 1]]
  }

  lemma {:induction false} LookupFinds<V>(t: Table<V>, key: Bytes, v: V)
    requires SortedTable(t)
    ensures Lookup(t, key) == Some(v) <==> (key, v) in t
    decreases |t|
  {
    if t != [] {
      var n := |t| - 1;
      LookupFinds(t[..n], key, v);
      assert t == t[..n] + [t[n]];
      if t[n].0 == key {
        forall i | 0 <= i < n
          ensures t[i].0 != key
        {
          LessAsymmetric(t[i].0, t[n].0);
        }
      }
    }
  }

  lemma {:induction false} InsertRowElements<V>(t: Table<V>, key: Bytes, v: V, r: (Bytes, V))
    ensures r in InsertRow(t, key, v) <==> r in t || r == (key, v)
    decreases |t|
  {
    if t != [] && !Less(t[|t| - 1].0, key) {
      var n := |t| - 1;
      InsertRowElements(t[..n], key, v, r);
      assert t == t[..n] + [t[n]];
    }
  }

  lemma {:induction false} InsertRowSorted<V>(t: Table<V>, key: Bytes, v: V)
    requires SortedTable(t) && (forall r <- t :: r.0 != key)
    ensures SortedTable(InsertRow(t, key, v))
    decreases |t|
  {
    if t != [] {
      var n := |t| - 1;
      var before, last := t[..n], t[n];
      assert t == before + [last];
      if Less(last.0, key) {
        forall i | 0 <= i < n
          ensures Less(t[i].0, key)
        {
          LessTransitive(t[i].0, last.0, key);
        }
      } else {
        LessTotal(key, last.0);
        InsertRowSorted(before, key, v);
        var inner := InsertRow(before, key, v);
        forall i | 0 <= i < |inner|
          ensures Less(inner[i].0, last.0)
        {
          InsertRowElements(before, key, v, inner[i]);
        }
      }
    }
  }

  // ----- index keys -----

  function BigEndian(n: nat, w: nat): (b: Bytes)
    ensures |b| == w
  {
    if w == 0 then [] else BigEndian(n / 256, w - 1) + [(n % 256) as byte]
  }

  lemma {:induction false} BigEndianInjective(n: nat, m: nat, w: nat)
    requires n < Pow256(w) && m < Pow256(w) && BigEndian(n, w) == BigEndian(m, w)
    ensures n == m
    decreases w
  {
    if w > 0 {
      var a, b := BigEndian(n, w), BigEndian(m, w);
      assert a[..w - 1] == BigEndian(n / 256, w - 1) && b[..w - 1] == BigEndian(m / 256, w - 1);
      assert a[w - 1] == b[w - 1];
      BigEndianInjective(n / 256, m / 256, w - 1);
    }
  }

  /** `channel || 0 || created_at || id`. */
  function ChanKey(channel: Bytes, createdAt: nat, id: Bytes): Bytes {
    channel + [0] + (BigEndian(createdAt, 8) + id)
  }

  lemma {:induction false} NothingBelowZeros(a: Bytes, z: Bytes)
    requires |a| == |z| && (forall i :: 0 <= i < |z| ==> z[i] == 0)
    ensures !Less(a, z)
    decreases |a|
  {
    if a != [] {
      NothingBelowZeros(a[1..], z[1..]);
    }
  }

  lemma {:induction false} AllBelowOnes(a: Bytes, z: Bytes)
    requires |a| == |z| && (forall i :: 0 <= i < |z| ==> z[i] == 255)
    ensures Less(a, z) <==> a != z
    ensures !Less(z, a)
    decreases |a|
  {
    if a != [] {
      assert a == [a[0]] + a[1..] && z == [z[0]] + z[1..];
      AllBelowOnes(a[1..], z[1..]);
    }
  }

  /** The last instant and the last id, whose key the range scan leaves out. */
  predicate AtTop(e: Event) {
    e.createdAt == U64_MAX && IdOf(e) == Repeat(255, 32)
  }

  function Lo(channel: Bytes): Bytes { ChanKey(channel, 0, Repeat(0, 32)) }
  function Hi(channel: Bytes): Bytes { ChanKey(channel, U64_MAX, Repeat(255, 32)) }

  predicate InRange(channel: Bytes, key: Bytes) {
    !Less(key, Lo(channel)) && Less(key, Hi(channel))
  }

  lemma BigEndianEnds()
    ensures BigEndian(0, 8) == Repeat(0, 8) && BigEndian(U64_MAX, 8) == Repeat(255, 8)
  {
    assert BigEndian(0, 4) == Repeat(0, 4);
    assert BigEndian(0xffff_ffff, 4) == Repeat(255, 4);
  }

  lemma TopKey(createdAt: U64, id: Bytes)
    requires |id| == 32
    ensures BigEndian(createdAt, 8) + id == Repeat(255, 40) <==> createdAt == U64_MAX && id == Repeat(255, 32)
  {
    hide BigEndian;
    BigEndianEnds();
    Pow256Of8();
    var k := BigEndian(createdAt, 8) + id;
    assert Repeat(255, 40) == Repeat(255, 8) + Repeat(255, 32);
    if k == Repeat(255, 40) {
      assert k[..8] == BigEndian(createdAt, 8) && k[8..] == id;
      assert BigEndian(createdAt, 8) == BigEndian(U64_MAX, 8);
      BigEndianInjective(createdAt, U64_MAX, 8);
    }
  }

  /** The range of a channel holds all its keys but the last possible one, whatever
      bytes the channel's name is made of. */
  lemma RangeHoldsChannel(channel: Bytes, createdAt: U64, id: Bytes)
    requires |id| == 32
    ensures InRange(channel, ChanKey(channel, createdAt, id)) <==>
            !(createdAt == U64_MAX && id == Repeat(255, 32))
  {
    hide BigEndian, Less;
    var p, k := channel + [0], BigEndian(createdAt, 8) + id;
    BigEndianEnds();
    assert BigEndian(0, 8) + Repeat(0, 32) == Repeat(0, 40);
    assert BigEndian(U64_MAX, 8) + Repeat(255, 32) == Repeat(255, 40);
    LessAfterPrefix(p, k, Repeat(0, 40));
    LessAfterPrefix(p, k, Repeat(255, 40));
    NothingBelowZeros(k, Repeat(0, 40));
    AllBelowOnes(k, Repeat(255, 40));
    TopKey(createdAt, id);
  }

  lemma KeysOrderIds(channel: Bytes, createdAt: nat, a: Bytes, b: Bytes)
    ensures Less(ChanKey(channel, createdAt, a), ChanKey(channel, createdAt, b)) <==> Less(a, b)
  {
    hide BigEndian, Less;
    var p := channel + [0] + BigEndian(createdAt, 8);
    assert ChanKey(channel, createdAt, a) == p + a && ChanKey(channel, createdAt, b) == p + b;
    LessAfterPrefix(p, a, b);
  }

  // ----- the store -----

  datatype Store = Store(events: Table<Event>, byChan: Table<Bytes>)

  /** The 32 bytes an event id spells. */
  function ParseId(id: Bytes): Option<Bytes> {
    match Hex.Decode(id)
    case Some(b) => if |b| == 32 then Some(b) else None
    case None => None
  }

  function IdOf(e: Event): Bytes {
    match ParseId(e.id)
    case Some(b) => b
    case None => []
  }

  function Channel(e: Event): Option<Bytes> {
    TagValue(e.tags, H_TAG)
  }

  function KeyOf(e: Event): Bytes {
    match Channel(e)
    case Some(c) => ChanKey(c, e.createdAt, IdOf(e))
    case None => []
  }

  /** `put`: refused for a bad id, ignored for a known one, else stored and indexed. */
  function Put(s: Store, e: Event): (Store, Result<bool, ()>) {
    match ParseId(e.id)
    case None => (s, Err(()))
    case Some(id) =>
      if Lookup(s.events, id).Some? then (s, Ok(false))
      else
        (Store(InsertRow(s.events, id, e),
               if Channel(e).Some? then InsertRow(s.byChan, KeyOf(e), id) else s.byChan),
         Ok(true))
  }

  /** Events sit under their ids, and the index holds exactly the keys of events that
      name a channel. */
  ghost predicate Valid(s: Store) {
    && SortedTable(s.events) && SortedTable(s.byChan)
    && (forall r <- s.events :: ParseId(r.1.id) == Some(r.0))
    && (forall r <- s.events :: Channel(r.1).Some? ==> (KeyOf(r.1), r.0) in s.byChan)
    && (forall x <- s.byChan :: Indexes(s.events, x))
  }

  ghost predicate Indexes(events: Table<Event>, x: (Bytes, Bytes)) {
    exists e :: (x.1, e) in events && Channel(e).Some? && x.0 == KeyOf(e)
  }

  /** A key tells its id, so no two events share one. */
  lemma KeyTellsId(e: Event, f: Event)
    requires ParseId(e.id).Some? && ParseId(f.id).Some? && Channel(e).Some? && Channel(f).Some?
    requires KeyOf(e) == KeyOf(f)
    ensures IdOf(e) == IdOf(f)
  {
    hide BigEndian, ParseId;
    var a, b := KeyOf(e), KeyOf(f);
    assert |IdOf(e)| == 32 && |IdOf(f)| == 32 by { ParsedLength(e); ParsedLength(f); }
    assert a[|a| - 32..] == IdOf(e) && b[|b| - 32..] == IdOf(f);
  }

  lemma ParsedLength(e: Event)
    requires ParseId(e.id).Some?
    ensures |IdOf(e)| == 32
  {
  }

  lemma PutKeepsValid(s: Store, e: Event)
    requires Valid(s)
    ensures Valid(Put(s, e).0)
  {
    hide InsertRow, Lookup, SortedTable, KeyOf, ParseId, Less;
    if ParseId(e.id).Some? && Lookup(s.events, ParseId(e.id).value).None? {
      var id, s' := ParseId(e.id).value, Put(s, e).0;
      forall r
        ensures r in s'.events <==> r in s.events || r == (id, e)
      {
        InsertRowElements(s.events, id, e, r);
      }
      forall r <- s.events
        ensures r.0 != id
      {
        LookupFinds(s.events, r.0, r.1);
      }
      InsertRowSorted(s.events, id, e);
      if Channel(e).Some? {
        forall x
          ensures x in s'.byChan <==> x in s.byChan || x == (KeyOf(e), id)
        {
          InsertRowElements(s.byChan, KeyOf(e), id, x);
        }
        forall x <- s.byChan
          ensures x.0 != KeyOf(e)
        {
          var f :| (x.1, f) in s.events && Channel(f).Some? && x.0 == KeyOf(f);
          if x.0 == KeyOf(e) {
            KeyTellsId(e, f);
          }
        }
        InsertRowSorted(s.byChan, KeyOf(e), id);
      }
    }
  }

  const EMPTY: Store := Store([], [])

  function PutAll(events: seq<Event>): Store {
    if events == [] then EMPTY else Put(PutAll(events[..|events| - 1]), events[|events| - 1]).0
  }

  lemma {:induction false} PutAllValid(events: seq<Event>)
    ensures Valid(PutAll(events))
    decreases |events|
  {
    if events != [] {
      PutAllValid(events[..|events| - 1]);
      PutKeepsValid(PutAll(events[..|events| - 1]), events[|events| - 1]);
    }
  }

  /** `e` is the first of the events with its id, and that id parses. */
  ghost predicate FirstWithId(events: seq<Event>, e: Event) {
    ParseId(e.id).Some? && exists i :: 0 <= i < |events| && events[i] == e && NoneBefore(events, i, IdOf(e))
  }

  ghost predicate NoneBefore(events: seq<Event>, i: nat, id: Bytes)
    requires i <= |events|
  {
    forall j :: 0 <= j < i ==> ParseId(events[j].id) != Some(id)
  }

  lemma FirstWithIdStep(events: seq<Event>, last: Event, e: Event)
    ensures FirstWithId(events + [last], e) <==>
            || FirstWithId(events, e)
            || (e == last && ParseId(e.id).Some? && NoneBefore(events, |events|, IdOf(e)))
  {
    hide ParseId, IdOf;
    var all := events + [last];
    assert forall i :: 0 <= i < |events| ==> all[i] == events[i];
    if FirstWithId(events, e) {
      var i :| 0 <= i < |events| && events[i] == e && NoneBefore(events, i, IdOf(e));
      assert all[i] == e && NoneBefore(all, i, IdOf(e));
    }
    if e == last && ParseId(e.id).Some? && NoneBefore(events, |events|, IdOf(e)) {
      assert all[|events|] == e && NoneBefore(all, |events|, IdOf(e));
    }
    if FirstWithId(all, e) {
      var i :| 0 <= i < |all| && all[i] == e && NoneBefore(all, i, IdOf(e));
      if i < |events| {
        assert events[i] == e && NoneBefore(events, i, IdOf(e));
      } else {
        assert NoneBefore(events, |events|, IdOf(e));
      }
    }
  }

  /** Some stored event has that id iff an event with it was put. */
  lemma KnownIff(events: seq<Event>, s: Store, id: Bytes)
    requires Valid(s) && (forall e :: Stored(s, e) <==> FirstWithId(events, e))
    ensures Lookup(s.events, id).Some? <==> !NoneBefore(events, |events|, id)
  {
    hide Lookup, Less, Indexes, ParseId;
    if Lookup(s.events, id).Some? {
      var e := Lookup(s.events, id).value;
      LookupFinds(s.events, id, e);
      assert Stored(s, e);
      var i :| 0 <= i < |events| && events[i] == e;
    }
    if !NoneBefore(events, |events|, id) {
      var e := FirstOf(events, id);
      assert Stored(s, e);
      StoredRow(s, e);
      LookupFinds(s.events, id, e);
    }
  }

  lemma {:induction false} FirstOf(events: seq<Event>, id: Bytes) returns (e: Event)
    requires !NoneBefore(events, |events|, id)
    ensures FirstWithId(events, e) && ParseId(e.id) == Some(id) && IdOf(e) == id
    decreases |events|
  {
    hide ParseId;
    var n := |events| - 1;
    assert events == events[..n] + [events[n]];
    if NoneBefore(events[..n], n, id) {
      e := events[n];
      IdIs(e, id);
      FirstWithIdStep(events[..n], e, e);
    } else {
      e := FirstOf(events[..n], id);
      FirstWithIdStep(events[..n], events[n], e);
    }
  }

  lemma IdIs(e: Event, id: Bytes)
    requires ParseId(e.id) == Some(id)
    ensures IdOf(e) == id
  {
  }

  /** The store holds, of all events put, the first with each id that parses; a put answers
      that it is new iff it is that. */
  lemma {:induction false} FirstPutStays(events: seq<Event>)
    ensures Valid(PutAll(events)) && forall e :: Stored(PutAll(events), e) <==> FirstWithId(events, e)
    decreases |events|
  {
    hide Valid, ParseId, InsertRow, Lookup, IdOf, FirstWithId, NoneBefore;
    PutAllValid(events);
    if events == [] {
      NoneFirst();
    } else {
      var n := |events| - 1;
      var last, before := events[n], PutAll(events[..n]);
      FirstPutStays(events[..n]);
      assert events == events[..n] + [last];
      PutIsExact(events[..n], before, last);
      forall e
        ensures Stored(PutAll(events), e) <==> FirstWithId(events, e)
      {
        FirstWithIdStep(events[..n], last, e);
      }
    }
  }

  lemma NoneFirst()
    ensures forall e :: !FirstWithId([], e)
  {
  }

  /** What one put does: refused iff the id does not parse; new iff no event with that id was
      put before, and then the event joins the store; otherwise nothing changes. */
  lemma PutIsExact(events: seq<Event>, s: Store, last: Event)
    requires Valid(s) && (forall e :: Stored(s, e) <==> FirstWithId(events, e))
    ensures var (s', r) := Put(s, last);
            && (r.Err? <==> ParseId(last.id).None?)
            && (r == Ok(true) <==> ParseId(last.id).Some? && NoneBefore(events, |events|, IdOf(last)))
            && (forall e :: Stored(s', e) <==> Stored(s, e) || (e == last && r == Ok(true)))
  {
    hide Valid, InsertRow, Lookup, FirstWithId, NoneBefore, Channel, KeyOf;
    if ParseId(last.id).Some? {
      KnownIff(events, s, IdOf(last));
      forall r
        ensures r in InsertRow(s.events, IdOf(last), last) <==> r in s.events || r == (IdOf(last), last)
      {
        InsertRowElements(s.events, IdOf(last), last, r);
      }
      if Put(s, last).1 == Ok(true) {
        assert (IdOf(last), last) in Put(s, last).0.events;
      }
    }
  }

  /** So events with distinct ids that parse are all stored, and nothing else is. */
  lemma PutAllStores(events: seq<Event>)
    requires forall i :: 0 <= i < |events| ==> ParseId(events[i].id).Some?
    requires forall i, j :: 0 <= i < j < |events| ==> IdOf(events[i]) != IdOf(events[j])
    ensures forall e :: Stored(PutAll(events), e) <==> e in events
  {
    hide Valid, PutAll;
    FirstPutStays(events);
    forall e | e in events
      ensures FirstWithId(events, e)
    {
      var i :| 0 <= i < |events| && events[i] == e;
      assert NoneBefore(events, i, IdOf(e));
    }
  }

  // ----- queries -----

  function Kept(f: Filter, e: Event): seq<Event> {
    if Matches(f, e) then [e] else []
  }

  /** The full scan: matching events in id order. */
  function ScanList(events: Table<Event>, f: Filter): seq<Event> {
    if events == [] then []
    else ScanList(events[..|events| - 1], f) + Kept(f, events[|events| - 1].1)
  }

  /** What one index row contributes. */
  function FromRow(events: Table<Event>, f: Filter, channel: Bytes, x: (Bytes, Bytes)): seq<Event> {
    if !InRange(channel, x.0) then []
    else
      match Lookup(events, x.1)
      case Some(e) => Kept(f, e)
      case None => []
  }

  /** The range scan of one channel: matching events in index order. */
  function RangeList(events: Table<Event>, byChan: Table<Bytes>, f: Filter, channel: Bytes): seq<Event> {
    if byChan == [] then []
    else RangeList(events, byChan[..|byChan| - 1], f, channel) + FromRow(events, f, channel, byChan[|byChan| - 1])
  }

  /** `sort_by_key(created_at)`: stable. */
  function InsertByTime(s: seq<Event>, e: Event): seq<Event> {
    if s == [] || s[|s| - 1].createdAt <= e.createdAt then s + [e]
    else InsertByTime(s[..|s| - 1], e) + [s[|s| - 1]]
  }

  function SortByTime(s: seq<Event>): seq<Event> {
    if s == [] then [] else InsertByTime(SortByTime(s[..|s| - 1]), s[|s| - 1])
  }

  function Reversed(s: seq<Event>): (r: seq<Event>)
    ensures |r| == |s| && (forall i :: 0 <= i < |s| ==> r[i] == s[|s| - 1 - i])
  {
    seq(|s|, i requires 0 <= i < |s| => s[|s| - 1 - i])
  }

  function Limit(f: Filter): nat {
    Min(if f.limit.Some? then f.limit.value else 500, 2000)
  }

  /** Newest first, cut to the limit. */
  function Newest(f: Filter, s: seq<Event>): seq<Event> {
    var r := Reversed(SortByTime(s));
    if |r| <= Limit(f) then r else r[..Limit(f)]
  }

  function ScanAnswer(s: Store, f: Filter): seq<Event> {
    Newest(f, ScanList(s.events, f))
  }

  function RangeAnswer(s: Store, f: Filter, channel: Bytes): seq<Event> {
    Newest(f, RangeList(s.events, s.byChan, f, channel))
  }

  // ----- what the lists hold -----

  lemma {:induction false} ScanListHolds(events: Table<Event>, f: Filter, e: Event)
    ensures e in ScanList(events, f) <==> Matches(f, e) && exists r <- events :: r.1 == e
    decreases |events|
  {
    if events != [] {
      hide Matches;
      var n := |events| - 1;
      ScanListHolds(events[..n], f, e);
      assert events == events[..n] + [events[n]];
    }
  }

  lemma RangeListStep(events: Table<Event>, byChan: Table<Bytes>, f: Filter, channel: Bytes)
    requires byChan != []
    ensures var n := |byChan| - 1;
            RangeList(events, byChan, f, channel) ==
            RangeList(events, byChan[..n], f, channel) + FromRow(events, f, channel, byChan[n])
  {
    hide FromRow;
  }

  lemma {:induction false} RangeListHolds(events: Table<Event>, byChan: Table<Bytes>, f: Filter, channel: Bytes,
                                          e: Event)
    ensures e in RangeList(events, byChan, f, channel) <==> exists x <- byChan :: e in FromRow(events, f, channel, x)
    decreases |byChan|
  {
    if byChan != [] {
      hide FromRow, RangeList;
      var n := |byChan| - 1;
      var last := byChan[n];
      assert byChan == byChan[..n] + [last];
      RangeListStep(events, byChan, f, channel);
      RangeListHolds(events, byChan[..n], f, channel, e);
      if x :| x in byChan && e in FromRow(events, f, channel, x) {
        assert x == last || x in byChan[..n];
      } else {
        assert e !in FromRow(events, f, channel, last);
      }
    }
  }

  ghost predicate Stored(s: Store, e: Event) {
    exists r <- s.events :: r.1 == e
  }

  lemma StoredRow(s: Store, e: Event)
    requires Valid(s)
    ensures Stored(s, e) <==> (IdOf(e), e) in s.events
    ensures Stored(s, e) ==> ParseId(e.id).Some? && |IdOf(e)| == 32
  {
    hide Less, Lookup, SortedTable, KeyOf, Indexes;
  }

  lemma SameIdSameEvent(s: Store, a: Event, b: Event)
    requires Valid(s) && Stored(s, a) && Stored(s, b) && a.id == b.id
    ensures a == b
  {
    hide Less, Lookup, ParseId, Stored, Indexes;
    StoredRow(s, a);
    StoredRow(s, b);
    LookupFinds(s.events, IdOf(a), a);
    LookupFinds(s.events, IdOf(a), b);
  }

  /** The range scan of `channel` comes by `e`: its key is in the range. */
  predicate Reached(channel: Bytes, e: Event) {
    Channel(e).Some? && InRange(channel, KeyOf(e))
  }

  /** Of the events indexed under the channel, those not at the very top are reached. */
  lemma OwnIsReached(channel: Bytes, e: Event)
    requires Channel(e) == Some(channel) && |IdOf(e)| == 32
    ensures Reached(channel, e) <==> !AtTop(e)
  {
    hide InRange, IdOf;
    RangeHoldsChannel(channel, e.createdAt, IdOf(e));
  }

  lemma {:induction false} BetweenSharesPrefix(p: Bytes, k: Bytes, lo: Bytes, hi: Bytes)
    requires !Less(k, p + lo) && Less(k, p + hi)
    ensures p <= k
    decreases |p|
  {
    if p != [] {
      assert (p + lo)[1..] == p[1..] + lo && (p + hi)[1..] == p[1..] + hi;
      assert k != [] && k[0] == p[0];
      BetweenSharesPrefix(p[1..], k[1..], lo, hi);
      assert k == [k[0]] + k[1..] && p == [p[0]] + p[1..];
    }
  }

  /** A key of another channel is in the range only if one of the two names goes on after
      the other with a NUL byte. */
  lemma StrayNeedsNul(channel: Bytes, other: Bytes, createdAt: nat, id: Bytes)
    requires InRange(channel, ChanKey(other, createdAt, id)) && other != channel
    ensures channel + [0] <= other || other + [0] <= channel
  {
    hide BigEndian, Less;
    var p, rest := channel + [0], BigEndian(createdAt, 8) + id;
    var k := ChanKey(other, createdAt, id);
    BetweenSharesPrefix(p, k, BigEndian(0, 8) + Repeat(0, 32), BigEndian(U64_MAX, 8) + Repeat(255, 32));
    assert k == other + [0] + rest;
    if |other| > |channel| {
      assert forall i :: 0 <= i < |p| ==> other[i] == k[i] == p[i];
    } else {
      assert channel[..|channel|] == channel;
      assert other == channel[..|other|] by {
        assert forall i :: 0 <= i < |other| ==> channel[i] == p[i] == k[i] == other[i];
      }
      assert channel[|other|] == p[|other|] == k[|other|] == 0;
    }
  }

  /** The range list holds the matching events the range comes by. */
  lemma RangeHoldsMatches(s: Store, f: Filter, channel: Bytes, e: Event)
    requires Valid(s)
    ensures e in RangeList(s.events, s.byChan, f, channel) <==> Stored(s, e) && Matches(f, e) && Reached(channel, e)
  {
    hide Less, Lookup, SortedTable, Matches, InRange, RangeList, ParseId;
    RangeListHolds(s.events, s.byChan, f, channel, e);
    StoredRow(s, e);
    if Stored(s, e) && Matches(f, e) && Channel(e).Some? {
      LookupFinds(s.events, IdOf(e), e);
      var x := (KeyOf(e), IdOf(e));
      assert x in s.byChan;
      assert Reached(channel, e) <==> e in FromRow(s.events, f, channel, x);
    }
    if e in RangeList(s.events, s.byChan, f, channel) {
      var x :| x in s.byChan && e in FromRow(s.events, f, channel, x);
      RowIsOf(s, f, channel, x, e);
    }
  }

  lemma RowIsOf(s: Store, f: Filter, channel: Bytes, x: (Bytes, Bytes), e: Event)
    requires Valid(s) && x in s.byChan && e in FromRow(s.events, f, channel, x)
    ensures Stored(s, e) && Matches(f, e) && x.0 == KeyOf(e) && Reached(channel, e)
  {
    hide Less, Lookup, SortedTable, Matches, InRange, ParseId, KeyOf;
    assert Lookup(s.events, x.1) == Some(e) && Matches(f, e) && InRange(channel, x.0);
    LookupFinds(s.events, x.1, e);
    assert Indexes(s.events, x);
    var e' :| (x.1, e') in s.events && Channel(e').Some? && x.0 == KeyOf(e');
    LookupFinds(s.events, x.1, e');
    assert (x.1, e) in s.events;
  }

  // ----- order -----

  /** Before in time, and within a second before in the order of `k`. */
  predicate EarlierBy(k: Event -> Bytes, a: Event, b: Event) {
    a.createdAt < b.createdAt || (a.createdAt == b.createdAt && Less(k(a), k(b)))
  }

  predicate Earlier(a: Event, b: Event) {
    EarlierBy(IdOf, a, b)
  }

  lemma EarlierAsymmetric(k: Event -> Bytes, a: Event, b: Event)
    requires EarlierBy(k, a, b)
    ensures !EarlierBy(k, b, a)
  {
    if a.createdAt == b.createdAt {
      LessAsymmetric(k(a), k(b));
    }
  }

  ghost predicate SortedBy(k: Event -> Bytes, s: seq<Event>) {
    forall i, j :: 0 <= i < j < |s| ==> EarlierBy(k, s[i], s[j])
  }

  /** Events of one second stand in the order of `k`. */
  ghost predicate TiesBy(k: Event -> Bytes, s: seq<Event>) {
    forall i, j :: 0 <= i < j < |s| && s[i].createdAt == s[j].createdAt ==> Less(k(s[i]), k(s[j]))
  }

  lemma {:induction false} InsertByTimeHolds(s: seq<Event>, e: Event, x: Event)
    ensures x in InsertByTime(s, e) <==> x in s || x == e
    decreases |s|
  {
    if s != [] && s[|s| - 1].createdAt > e.createdAt {
      InsertByTimeHolds(s[..|s| - 1], e, x);
      assert s == s[..|s| - 1] + [s[|s| - 1]];
    }
  }

  lemma {:induction false} SortByTimeHolds(s: seq<Event>, x: Event)
    ensures x in SortByTime(s) <==> x in s
    decreases |s|
  {
    if s != [] {
      SortByTimeHolds(s[..|s| - 1], x);
      InsertByTimeHolds(SortByTime(s[..|s| - 1]), s[|s| - 1], x);
      assert s == s[..|s| - 1] + [s[|s| - 1]];
    }
  }

  lemma {:induction false} InsertByTimeSorts(k: Event -> Bytes, s: seq<Event>, e: Event)
    requires SortedBy(k, s) && (forall x <- s :: x.createdAt == e.createdAt ==> Less(k(x), k(e)))
    ensures SortedBy(k, InsertByTime(s, e))
    decreases |s|
  {
    hide Less;
    if s != [] {
      var n := |s| - 1;
      assert s == s[..n] + [s[n]];
      if s[n].createdAt > e.createdAt {
        var inner := InsertByTime(s[..n], e);
        InsertByTimeSorts(k, s[..n], e);
        forall i | 0 <= i < |inner|
          ensures EarlierBy(k, inner[i], s[n])
        {
          InsertByTimeHolds(s[..n], e, inner[i]);
        }
      } else {
        forall i | 0 <= i < n
          ensures EarlierBy(k, s[i], e)
        {
          assert EarlierBy(k, s[i], s[n]) && s[i] in s;
        }
      }
    }
  }

  /** A stable sort by time of a list whose ties stand in the order of `k` sorts by both. */
  lemma {:induction false} SortByTimeSorts(k: Event -> Bytes, s: seq<Event>)
    requires TiesBy(k, s)
    ensures SortedBy(k, SortByTime(s))
    decreases |s|
  {
    if s != [] {
      hide Less, EarlierBy;
      var n := |s| - 1;
      SortByTimeSorts(k, s[..n]);
      var sorted := SortByTime(s[..n]);
      forall x <- sorted
        ensures x.createdAt == s[n].createdAt ==> Less(k(x), k(s[n]))
      {
        SortByTimeHolds(s[..n], x);
      }
      InsertByTimeSorts(k, sorted, s[n]);
    }
  }

  lemma {:induction false} ScanTies(events: Table<Event>, f: Filter)
    requires SortedTable(events) && (forall r <- events :: ParseId(r.1.id) == Some(r.0))
    ensures TiesBy(IdOf, ScanList(events, f))
    decreases |events|
  {
    if events != [] {
      hide Less, Matches, ParseId;
      var n := |events| - 1;
      ScanTies(events[..n], f);
      var before := ScanList(events[..n], f);
      forall i | 0 <= i < |before|
        ensures Less(IdOf(before[i]), IdOf(events[n].1))
      {
        ScanListHolds(events[..n], f, before[i]);
        var r :| r in events[..n] && r.1 == before[i];
        assert Less(r.0, events[n].0);
      }
    }
  }

  lemma {:induction false} RangeTies(s: Store, rows: Table<Bytes>, f: Filter, channel: Bytes)
    requires Valid(s) && rows <= s.byChan
    ensures TiesBy(KeyOf, RangeList(s.events, rows, f, channel))
    decreases |rows|
  {
    if rows != [] {
      hide *;
      var n := |rows| - 1;
      RangeListStep(s.events, rows, f, channel);
      RangeTies(s, rows[..n], f, channel);
      RowGivesOne(s.events, f, channel, rows[n]);
      var before := RangeList(s.events, rows[..n], f, channel);
      forall i, e | 0 <= i < |before| && e in FromRow(s.events, f, channel, rows[n])
        ensures Less(KeyOf(before[i]), KeyOf(e))
      {
        RangeListHolds(s.events, rows[..n], f, channel, before[i]);
        var x :| x in rows[..n] && before[i] in FromRow(s.events, f, channel, x);
        RowsAscend(s, rows, x);
        RowIsOf(s, f, channel, x, before[i]);
        RowIsOf(s, f, channel, rows[n], e);
      }
      TiesAppend(KeyOf, before, FromRow(s.events, f, channel, rows[n]));
    } else {
      NoTies(KeyOf);
    }
  }

  lemma NoTies(k: Event -> Bytes)
    ensures TiesBy(k, [])
  {
  }

  lemma TiesAppend(k: Event -> Bytes, s: seq<Event>, t: seq<Event>)
    requires TiesBy(k, s) && |t| <= 1
    requires forall i, e :: 0 <= i < |s| && e in t ==> Less(k(s[i]), k(e))
    ensures TiesBy(k, s + t)
  {
    hide Less;
    assert t != [] ==> t[0] in t;
  }

  lemma RowsAscend(s: Store, rows: Table<Bytes>, x: (Bytes, Bytes))
    requires Valid(s) && rows != [] && rows <= s.byChan && x in rows[..|rows| - 1]
    ensures x in s.byChan && rows[|rows| - 1] in s.byChan && Less(x.0, rows[|rows| - 1].0)
  {
    hide Less, Indexes, KeyOf, ParseId;
    var i :| 0 <= i < |rows| - 1 && rows[i] == x;
    assert s.byChan[i] == x && s.byChan[|rows| - 1] == rows[|rows| - 1];
  }

  lemma RowGivesOne(events: Table<Event>, f: Filter, channel: Bytes, x: (Bytes, Bytes))
    ensures |FromRow(events, f, channel, x)| <= 1
  {
  }

  // ----- the two paths agree -----

  ghost predicate IsPart(a: seq<Event>, b: seq<Event>) {
    forall e :: e in a ==> e in b
  }

  /** `a` holds `e`, and whatever of it precedes `e` by id does so by key. */
  ghost predicate Fits(a: seq<Event>, e: Event) {
    e in a && forall x :: x in a && Earlier(x, e) ==> EarlierBy(KeyOf, x, e)
  }

  lemma LastIsApart(k: Event -> Bytes, a: seq<Event>)
    requires SortedBy(k, a) && a != []
    ensures forall i :: 0 <= i < |a| - 1 ==> a[i] != a[|a| - 1]
    ensures forall e <- a :: e in a[..|a| - 1] || e == a[|a| - 1]
  {
    hide EarlierBy;
    forall i | 0 <= i < |a| - 1
      ensures a[i] != a[|a| - 1]
    {
      EarlierAsymmetric(k, a[i], a[|a| - 1]);
    }
    assert a == a[..|a| - 1] + [a[|a| - 1]];
  }

  /** A part sorted by key into which the last of a list sorted by id fits ends with it,
      and the rest of the part is a part of the rest. */
  lemma SameLast(a: seq<Event>, b: seq<Event>)
    requires SortedBy(KeyOf, a) && SortedBy(IdOf, b) && IsPart(a, b) && b != [] && Fits(a, b[|b| - 1])
    ensures a != [] && a[|a| - 1] == b[|b| - 1]
    ensures IsPart(a[..|a| - 1], b[..|b| - 1])
    ensures forall e :: Fits(a, e) && e != b[|b| - 1] ==> Fits(a[..|a| - 1], e)
  {
    hide EarlierBy;
    var x, y := a[|a| - 1], b[|b| - 1];
    assert x in a && x in b;
    var i :| 0 <= i < |a| && a[i] == y;
    if x != y {
      var j :| 0 <= j < |b| && b[j] == x;
      assert EarlierBy(IdOf, b[j], b[|b| - 1]) && EarlierBy(KeyOf, a[i], a[|a| - 1]);
      assert Earlier(x, y);
      EarlierAsymmetric(KeyOf, x, y);
    }
    LastIsApart(KeyOf, a);
    LastIsApart(IdOf, b);
    var rest := a[..|a| - 1];
    forall k | 0 <= k < |rest|
      ensures rest[k] in b[..|b| - 1]
    {
      assert rest[k] == a[k] && a[k] in a && a[k] in b && a[k] != x;
    }
  }

  /** A part sorted by key into which the last `n` of a list sorted by id fit ends with
      them. */
  lemma {:induction false} SameEnd(a: seq<Event>, b: seq<Event>, n: nat)
    requires SortedBy(KeyOf, a) && SortedBy(IdOf, b) && IsPart(a, b) && n <= |b|
    requires forall i :: |b| - n <= i < |b| ==> Fits(a, b[i])
    ensures n <= |a| && a[|a| - n..] == b[|b| - n..]
    decreases n
  {
    hide EarlierBy, IsPart, Fits;
    if n > 0 {
      SameLast(a, b);
      LastIsApart(IdOf, b);
      var a', b' := a[..|a| - 1], b[..|b| - 1];
      SameEnd(a', b', n - 1);
      assert a[|a| - n..] == a'[|a'| - (n - 1)..] + [a[|a| - 1]];
      assert b[|b| - n..] == b'[|b'| - (n - 1)..] + [b[|b| - 1]];
    }
  }

  /** Conversely, what the two end with fits. */
  lemma EndFits(a: seq<Event>, b: seq<Event>, n: nat, i: nat)
    requires SortedBy(KeyOf, a) && SortedBy(IdOf, b) && IsPart(a, b) && n <= |a| && n <= |b|
    requires a[|a| - n..] == b[|b| - n..] && |b| - n <= i < |b|
    ensures Fits(a, b[i])
  {
    hide EarlierBy;
    var e, j := b[i], |a| - |b| + i;
    assert a[|a| - n..][i - (|b| - n)] == b[|b| - n..][i - (|b| - n)];
    assert a[j] == e;
    forall x | x in a && Earlier(x, e)
      ensures EarlierBy(KeyOf, x, e)
    {
      var k :| 0 <= k < |a| && a[k] == x;
      if k >= j {
        assert a[|a| - n..][k - (|a| - n)] == b[|b| - n..][k - (|a| - n)];
        assert b[|b| - |a| + k] == x;
        if k > j {
          assert EarlierBy(IdOf, b[i], b[|b| - |a| + k]);
        }
        EarlierAsymmetric(IdOf, x, e);
      }
    }
  }

  lemma NewestAt(f: Filter, s: seq<Event>, i: nat)
    ensures |Newest(f, s)| == Min(Limit(f), |SortByTime(s)|)
    ensures i < |Newest(f, s)| ==> Newest(f, s)[i] == SortByTime(s)[|SortByTime(s)| - 1 - i]
  {
    hide SortByTime, Limit;
  }

  /** Two lists have the same newest iff as many are newest in both and they end alike. */
  lemma SameNewestIff(f: Filter, a: seq<Event>, b: seq<Event>, n: nat)
    requires n == |Newest(f, b)|
    ensures var sa, sb := SortByTime(a), SortByTime(b);
            n <= |sb| &&
            (Newest(f, a) == Newest(f, b) <==>
             |Newest(f, a)| == n && n <= |sa| && sa[|sa| - n..] == sb[|sb| - n..])
  {
    hide *;
    NewestAt(f, a, 0);
    NewestAt(f, b, 0);
    MinIsBelow(Limit(f), |SortByTime(a)|);
    MinIsBelow(Limit(f), |SortByTime(b)|);
    if |Newest(f, a)| == n {
      var x, y := SortByTime(a)[|SortByTime(a)| - n..], SortByTime(b)[|SortByTime(b)| - n..];
      forall k | 0 <= k < n
        ensures x[k] == Newest(f, a)[n - 1 - k] && y[k] == Newest(f, b)[n - 1 - k]
      {
        NewestAt(f, a, n - 1 - k);
        NewestAt(f, b, n - 1 - k);
      }
      BackwardsEqual(x, y, Newest(f, a), Newest(f, b));
    }
  }

  lemma MinIsBelow(a: int, b: int)
    ensures Min(a, b) <= a && Min(a, b) <= b
  {
  }

  /** Two lists are equal iff they are backwards. */
  lemma BackwardsEqual(x: seq<Event>, y: seq<Event>, u: seq<Event>, v: seq<Event>)
    requires |x| == |y| == |u| == |v|
    requires forall k :: 0 <= k < |x| ==> x[k] == u[|x| - 1 - k] && y[k] == v[|x| - 1 - k]
    ensures x == y <==> u == v
  {
    if x == y {
      forall i | 0 <= i < |u|
        ensures u[i] == v[i]
      {
        assert x[|x| - 1 - i] == y[|x| - 1 - i];
      }
    }
  }

  /** The newest of a part are the newest of the whole iff those fit into it. */
  lemma NewestSameIff(f: Filter, a: seq<Event>, b: seq<Event>)
    requires TiesBy(KeyOf, a) && TiesBy(IdOf, b) && IsPart(a, b)
    ensures Newest(f, a) == Newest(f, b) <==> forall e :: e in Newest(f, b) ==> Fits(a, e)
  {
    hide *;
    SortByTimeSorts(KeyOf, a);
    SortByTimeSorts(IdOf, b);
    SortedParts(a, b);
    var n := |Newest(f, b)|;
    SameNewestIff(f, a, b, n);
    if forall e :: e in Newest(f, b) ==> Fits(a, e) {
      NewestFit(f, a, b, n);
    }
    if Newest(f, a) == Newest(f, b) {
      forall e | e in Newest(f, b)
        ensures Fits(a, e)
      {
        SameEndFits(f, a, b, n, e);
      }
    }
  }

  lemma SameEndFits(f: Filter, a: seq<Event>, b: seq<Event>, n: nat, e: Event)
    requires IsPart(SortByTime(a), SortByTime(b)) && n == |Newest(f, b)| && e in Newest(f, b)
    requires SortedBy(KeyOf, SortByTime(a)) && SortedBy(IdOf, SortByTime(b))
    requires var sa, sb := SortByTime(a), SortByTime(b);
             n <= |sa| && n <= |sb| && sa[|sa| - n..] == sb[|sb| - n..]
    ensures Fits(a, e)
  {
    hide *;
    var j :| 0 <= j < n && Newest(f, b)[j] == e;
    NewestAt(f, b, j);
    EndFits(SortByTime(a), SortByTime(b), n, |SortByTime(b)| - 1 - j);
    FitsSorted(a, e);
  }

  lemma NewestFit(f: Filter, a: seq<Event>, b: seq<Event>, n: nat)
    requires IsPart(SortByTime(a), SortByTime(b)) && n == |Newest(f, b)|
    requires SortedBy(KeyOf, SortByTime(a)) && SortedBy(IdOf, SortByTime(b))
    requires forall e :: e in Newest(f, b) ==> Fits(a, e)
    ensures var sa, sb := SortByTime(a), SortByTime(b);
            n <= |sb| && |Newest(f, a)| == n && n <= |sa| && sa[|sa| - n..] == sb[|sb| - n..]
  {
    hide SortByTime, EarlierBy, SortedBy, Newest, Limit, Fits, IsPart;
    var sa, sb := SortByTime(a), SortByTime(b);
    NewestAt(f, b, 0);
    NewestAt(f, a, 0);
    forall i | |sb| - n <= i < |sb|
      ensures Fits(sa, sb[i])
    {
      var j := |sb| - 1 - i;
      NewestAt(f, b, j);
      assert Newest(f, b)[j] in Newest(f, b);
      FitsSorted(a, sb[i]);
    }
    SameEnd(sa, sb, n);
    if n == |sb| {
      assert sb[0..] == sb;
      SameLength(sa, sb);
    }
  }

  lemma FitsSorted(a: seq<Event>, e: Event)
    ensures Fits(a, e) <==> Fits(SortByTime(a), e)
  {
    hide SortByTime, EarlierBy;
    forall x
      ensures x in SortByTime(a) <==> x in a
    {
      SortByTimeHolds(a, x);
    }
  }

  lemma SortedParts(a: seq<Event>, b: seq<Event>)
    requires IsPart(a, b)
    ensures IsPart(SortByTime(a), SortByTime(b))
  {
    hide SortByTime;
    forall e | e in SortByTime(a)
      ensures e in SortByTime(b)
    {
      SortByTimeHolds(a, e);
      SortByTimeHolds(b, e);
    }
  }

  /** A sorted part that ends with the whole list is the whole list. */
  lemma SameLength(a: seq<Event>, b: seq<Event>)
    requires SortedBy(KeyOf, a) && IsPart(a, b) && |b| <= |a| && a[|a| - |b|..] == b
    ensures a == b
  {
    hide EarlierBy;
    if |a| > |b| {
      assert a[0] in a;
      var i :| 0 <= i < |b| && b[i] == a[0];
      assert a[|a| - |b| + i] == a[0];
      EarlierAsymmetric(KeyOf, a[0], a[|a| - |b| + i]);
    } else {
      assert a[0..] == a;
    }
  }

  // ----- on the store -----

  /** The stored events that match, and are newer than `e`. */
  ghost function Newer(s: Store, f: Filter, e: Event): set<Event> {
    set r | r in s.events && Matches(f, r.1) && Earlier(e, r.1) :: r.1
  }

  /** A stored event that matches, and fewer than the limit are newer. */
  ghost predicate Due(s: Store, f: Filter, e: Event) {
    Stored(s, e) && Matches(f, e) && |Newer(s, f, e)| < Limit(f)
  }

  lemma {:induction false} CountDistinct(s: seq<Event>)
    requires forall i, j :: 0 <= i < j < |s| ==> s[i] != s[j]
    ensures |set e | e in s| == |s|
    decreases |s|
  {
    if s != [] {
      var n := |s| - 1;
      CountDistinct(s[..n]);
      assert s == s[..n] + [s[n]];
      assert (set e | e in s) == (set e | e in s[..n]) + {s[n]};
    }
  }

  /** The events of a list that are later than `e`. */
  ghost function Later(k: Event -> Bytes, s: seq<Event>, e: Event): set<Event> {
    set x | x in s && EarlierBy(k, e, x)
  }

  /** In a sorted list, as many are later as stand behind. */
  lemma LaterStandBehind(k: Event -> Bytes, sorted: seq<Event>, i: nat)
    requires SortedBy(k, sorted) && i < |sorted|
    ensures |Later(k, sorted, sorted[i])| == |sorted| - 1 - i
  {
    hide EarlierBy;
    var behind := sorted[i + 1..];
    forall j, l | 0 <= j < l < |behind|
      ensures behind[j] != behind[l]
    {
      assert EarlierBy(k, sorted[i + 1 + j], sorted[i + 1 + l]);
      EarlierAsymmetric(k, behind[j], behind[l]);
    }
    CountDistinct(behind);
    forall e
      ensures e in Later(k, sorted, sorted[i]) <==> e in behind
    {
      if e in Later(k, sorted, sorted[i]) {
        var j :| 0 <= j < |sorted| && sorted[j] == e;
        if j <= i {
          assert j < i ==> EarlierBy(k, sorted[j], sorted[i]);
          EarlierAsymmetric(k, sorted[i], e);
        }
        assert e == behind[j - i - 1];
      }
      if e in behind {
        var j :| 0 <= j < |behind| && behind[j] == e;
        assert e == sorted[i + 1 + j] && EarlierBy(k, sorted[i], sorted[i + 1 + j]);
      }
    }
    assert Later(k, sorted, sorted[i]) == set e | e in behind;
  }

  /** The newest of a list are those with fewer than the limit later ones. */
  lemma InNewestIff(k: Event -> Bytes, f: Filter, s: seq<Event>, e: Event)
    requires TiesBy(k, s)
    ensures e in Newest(f, s) <==> e in s && |Later(k, s, e)| < Limit(f)
  {
    hide SortByTime, EarlierBy, Limit, Newest;
    var sorted, answer := SortByTime(s), Newest(f, s);
    SortByTimeSorts(k, s);
    forall x
      ensures x in sorted <==> x in s
    {
      SortByTimeHolds(s, x);
    }
    assert Later(k, sorted, e) == Later(k, s, e);
    if e in sorted {
      var i :| 0 <= i < |sorted| && sorted[i] == e;
      NewestAt(f, s, |sorted| - 1 - i);
      LaterStandBehind(k, sorted, i);
      if |sorted| - 1 - i < Limit(f) {
        assert answer[|sorted| - 1 - i] == e;
      }
    }
    if e in answer {
      var j :| 0 <= j < |answer| && answer[j] == e;
      NewestAt(f, s, j);
      LaterStandBehind(k, sorted, |sorted| - 1 - j);
    }
  }

  /** The full scan answers exactly the events that are due. */
  lemma AnsweredIffDue(s: Store, f: Filter, e: Event)
    requires Valid(s)
    ensures e in ScanAnswer(s, f) <==> Due(s, f, e)
  {
    hide ScanList, EarlierBy, Matches, Indexes, IdOf, Limit, Newest;
    var scan := ScanList(s.events, f);
    ScanTies(s.events, f);
    InNewestIff(IdOf, f, scan, e);
    forall x
      ensures x in scan <==> Stored(s, x) && Matches(f, x)
    {
      ScanHoldsMatches(s, f, x);
    }
    assert Later(IdOf, scan, e) == Newer(s, f, e);
  }

  // ----- what a query answers -----

  predicate StartsWith(s: Bytes, start: Bytes) {
    |start| <= |s| && s[..|start|] == start
  }

  /** The event's own fields meet the filter: its id and its author start with one of those
      given, its kind is one of them, its time is within the bounds, both included, and for
      every tag asked for it has one of that name whose value is among those wanted. */
  ghost predicate Wanted(f: Filter, e: Event) {
    && (f.ids.Some? ==> exists id <- f.ids.value :: StartsWith(e.id, id))
    && (f.authors.Some? ==> exists a <- f.authors.value :: StartsWith(e.pubkey, a))
    && (f.kinds.Some? ==> exists i :: 0 <= i < |f.kinds.value| && f.kinds.value[i] == e.kind)
    && (f.since.Some? ==> e.createdAt >= f.since.value) && (f.until.Some? ==> e.createdAt <= f.until.value)
    && (forall key <- f.tagFilters :: StartsWith(key, [HASH_SIGN]) ==> Tagged(e, key[1..], f.tagFilters[key]))
  }

  ghost predicate Tagged(e: Event, name: Bytes, values: seq<Bytes>) {
    exists i :: 0 <= i < |e.tags| && |e.tags[i]| >= 2 && e.tags[i][0] == name && e.tags[i][1] in values
  }

  lemma MatchesIffWanted(f: Filter, e: Event)
    ensures Matches(f, e) <==> Wanted(f, e)
  {
    forall a: Bytes, b: Bytes
      ensures a <= b <==> StartsWith(b, a)
    {
    }
    forall key <- f.tagFilters
      ensures StartsWith(key, [HASH_SIGN]) <==> key != [] && key[0] == HASH_SIGN
    {
    }
    forall key <- f.tagFilters | key != []
      ensures HasTag(e, key[1..], f.tagFilters[key]) <==> Tagged(e, key[1..], f.tagFilters[key])
    {
      TaggedIff(e, key[1..], f.tagFilters[key]);
    }
  }

  lemma TaggedIff(e: Event, name: Bytes, values: seq<Bytes>)
    ensures HasTag(e, name, values) <==> Tagged(e, name, values)
  {
    if HasTag(e, name, values) {
      var tag :| tag in e.tags && Names(tag, name) && tag[1] in values;
      var i :| 0 <= i < |e.tags| && e.tags[i] == tag;
    }
  }

  /** How many a query answers at most. */
  function AtMost(f: Filter): nat {
    if f.limit.None? then 500 else if f.limit.value > 2000 then 2000 else f.limit.value
  }

  /** What a query answers, exactly, in terms of the stored events' own fields: those that
      are wanted, with fewer than the limit newer wanted ones. The range scan of a channel
      knows only the events whose key it comes by. */
  lemma QueryIsExact(s: Store, f: Filter, channel: Bytes, e: Event)
    requires Valid(s)
    ensures e in ScanAnswer(s, f) <==>
            && (IdOf(e), e) in s.events && Wanted(f, e)
            && |set r | r in s.events && Wanted(f, r.1) && EarlierBy(IdOf, e, r.1) :: r.1| < AtMost(f)
    ensures e in RangeAnswer(s, f, channel) <==>
            && (IdOf(e), e) in s.events && Wanted(f, e) && Reached(channel, e)
            && |set r | r in s.events && Wanted(f, r.1) && Reached(channel, r.1) && EarlierBy(KeyOf, e, r.1) :: r.1| <
               AtMost(f)
  {
    hide ScanList, RangeList, EarlierBy, Matches, Wanted, Indexes, IdOf, KeyOf, Newest, Reached, Valid;
    forall x
      ensures Matches(f, x) <==> Wanted(f, x)
    {
      MatchesIffWanted(f, x);
    }
    StoredRow(s, e);
    AnsweredIffDue(s, f, e);
    assert Newer(s, f, e) == set r | r in s.events && Wanted(f, r.1) && EarlierBy(IdOf, e, r.1) :: r.1;
    var range := RangeList(s.events, s.byChan, f, channel);
    RangeTies(s, s.byChan, f, channel);
    InNewestIff(KeyOf, f, range, e);
    forall x
      ensures x in range <==> Stored(s, x) && Matches(f, x) && Reached(channel, x)
    {
      RangeHoldsMatches(s, f, channel, x);
    }
    assert Later(KeyOf, range, e) ==
           set r | r in s.events && Wanted(f, r.1) && Reached(channel, r.1) && EarlierBy(KeyOf, e, r.1) :: r.1;
  }

  // ----- when the two paths agree -----

  /** No matching event that the range comes by, of the same second and a smaller id, has a
      key past that of `e`. */
  ghost predicate InStep(s: Store, f: Filter, channel: Bytes, e: Event) {
    forall x :: Stored(s, x) && Matches(f, x) && Reached(channel, x) && x.createdAt == e.createdAt ==>
      (Less(IdOf(x), IdOf(e)) ==> Less(KeyOf(x), KeyOf(e)))
  }

  /** Index equals scan: the range scan of a channel answers a filter with the same list as
      the full scan iff the range comes by every event that is due, and keeps it in step
      with the others of its second. */
  lemma IndexEqualsScanIff(s: Store, f: Filter, channel: Bytes)
    requires Valid(s)
    ensures RangeAnswer(s, f, channel) == ScanAnswer(s, f) <==>
            forall e :: Due(s, f, e) ==> Reached(channel, e) && InStep(s, f, channel, e)
  {
    hide Newest, RangeList, ScanList, TiesBy, Matches, Indexes, IdOf, Stored, Reached, Due, Fits, InStep, Valid;
    var range, scan := RangeList(s.events, s.byChan, f, channel), ScanList(s.events, f);
    RangeTies(s, s.byChan, f, channel);
    ValidTies(s, f);
    forall e
      ensures e in range <==> Stored(s, e) && Matches(f, e) && Reached(channel, e)
      ensures e in scan <==> Stored(s, e) && Matches(f, e)
      ensures e in Newest(f, scan) <==> Due(s, f, e)
    {
      RangeHoldsMatches(s, f, channel, e);
      ScanHoldsMatches(s, f, e);
      AnsweredIffDue(s, f, e);
    }
    forall e | Due(s, f, e)
      ensures Fits(range, e) <==> Reached(channel, e) && InStep(s, f, channel, e)
    {
      FitsIffInStep(s, f, channel, range, e);
    }
    NewestSameIff(f, range, scan);
  }

  lemma ValidTies(s: Store, f: Filter)
    requires Valid(s)
    ensures TiesBy(IdOf, ScanList(s.events, f))
  {
    ScanTies(s.events, f);
  }

  lemma FitsIffInStep(s: Store, f: Filter, channel: Bytes, range: seq<Event>, e: Event)
    requires Due(s, f, e) && (forall x :: x in range <==> Stored(s, x) && Matches(f, x) && Reached(channel, x))
    ensures Fits(range, e) <==> Reached(channel, e) && InStep(s, f, channel, e)
  {
    hide Matches, Stored, IdOf, Less, KeyOf, Newer, Reached;
  }

  /** When all that the range comes by is indexed under the channel, nothing is out of step. */
  lemma OwnAreInStep(s: Store, f: Filter, channel: Bytes, e: Event)
    requires Reached(channel, e) && Channel(e) == Some(channel)
    requires forall x :: Stored(s, x) && Matches(f, x) && Reached(channel, x) ==> Channel(x) == Some(channel)
    ensures InStep(s, f, channel, e)
  {
    hide Matches, Stored, IdOf, Less, Reached, ChanKey;
    forall x | Stored(s, x) && Matches(f, x) && Reached(channel, x) && x.createdAt == e.createdAt
      ensures Less(IdOf(x), IdOf(e)) ==> Less(KeyOf(x), KeyOf(e))
    {
      KeysOrderIds(channel, e.createdAt, IdOf(x), IdOf(e));
    }
  }

  /** `a` goes on with a NUL byte after `b`, or the other way round. */
  predicate NulApart(a: Bytes, b: Bytes) {
    a + [0] <= b || b + [0] <= a
  }

  /** Among channels of which no name goes on after another with a NUL byte, the two paths
      agree iff every event that is due is indexed under the channel and does not sit at
      the very top. */
  lemma PathsAgreeIff(s: Store, f: Filter, channel: Bytes)
    requires Valid(s)
    requires forall r <- s.events :: Channel(r.1).Some? ==> !NulApart(channel, Channel(r.1).value)
    ensures RangeAnswer(s, f, channel) == ScanAnswer(s, f) <==>
            forall e :: Due(s, f, e) ==> Channel(e) == Some(channel) && !AtTop(e)
  {
    hide Matches, IdOf, Indexes, ScanAnswer, RangeAnswer, Limit, AtTop, Newer, InStep, InRange, ChanKey, Valid;
    IndexEqualsScanIff(s, f, channel);
    forall e | Stored(s, e)
      ensures Reached(channel, e) <==> Channel(e) == Some(channel) && !AtTop(e)
    {
      StoredRow(s, e);
      if Channel(e) == Some(channel) {
        OwnIsReached(channel, e);
      } else if Reached(channel, e) {
        StrayNeedsNul(channel, Channel(e).value, e.createdAt, IdOf(e));
      }
    }
    forall e | Due(s, f, e) && Reached(channel, e)
      ensures InStep(s, f, channel, e)
    {
      OwnAreInStep(s, f, channel, e);
    }
  }

  /** A matching event at the very top is due. */
  lemma TopIsDue(s: Store, f: Filter, e: Event)
    requires Valid(s) && Stored(s, e) && Matches(f, e) && AtTop(e) && Limit(f) > 0
    ensures Due(s, f, e)
  {
    hide Matches, Limit, ParseId, Less;
    StoredRow(s, e);
    forall r <- s.events
      ensures !Earlier(e, r.1)
    {
      assert Stored(s, r.1);
      StoredRow(s, r.1);
      AllBelowOnes(IdOf(r.1), Repeat(255, 32));
    }
    assert Newer(s, f, e) == {};
  }

  /** So when every event has at most one distinct `h` value, the two paths agree iff no
      stored event that matches sits at the very top, or nothing is asked for. */
  lemma IndexEqualsScan(s: Store, f: Filter, channel: Bytes)
    requires Valid(s) && TagValues(f, H_TAG) == [channel] && (forall r <- s.events :: OneValue(r.1.tags, H_TAG))
    ensures RangeAnswer(s, f, channel) == ScanAnswer(s, f) <==>
            Limit(f) == 0 || !exists e :: Stored(s, e) && Matches(f, e) && AtTop(e)
  {
    hide Matches, IdOf, Indexes, ScanAnswer, RangeAnswer, Limit, OneValue, TagValues, AtTop, Newer, InStep, Reached,
         Valid;
    IndexEqualsScanIff(s, f, channel);
    forall e | Stored(s, e) && Matches(f, e)
      ensures Channel(e) == Some(channel) && (Reached(channel, e) <==> !AtTop(e))
    {
      MatchNamesChannel(f, e, channel);
      StoredRow(s, e);
      OwnIsReached(channel, e);
    }
    forall e | Due(s, f, e) && Reached(channel, e)
      ensures InStep(s, f, channel, e)
    {
      OwnAreInStep(s, f, channel, e);
    }
    if e :| Stored(s, e) && Matches(f, e) && AtTop(e) && Limit(f) > 0 {
      TopIsDue(s, f, e);
    }
  }

  lemma ScanHoldsMatches(s: Store, f: Filter, e: Event)
    ensures e in ScanList(s.events, f) <==> Stored(s, e) && Matches(f, e)
  {
    ScanListHolds(s.events, f, e);
  }

  /** What a query means: stored matching events, newest first, and an omitted one only
      when the limit is reached, and then it is older than all that are answered. */
  lemma AnswerIsNewestMatching(s: Store, f: Filter)
    requires Valid(s)
    ensures var answer := ScanAnswer(s, f);
            && |answer| <= Limit(f)
            && (forall i, j :: 0 <= i < j < |answer| ==> Earlier(answer[j], answer[i]))
            && (forall e <- answer :: Stored(s, e) && Matches(f, e))
            && (forall e :: Stored(s, e) && Matches(f, e) && e !in answer ==>
                  |answer| == Limit(f) && forall x <- answer :: Earlier(e, x))
  {
    hide ScanList, SortByTime, EarlierBy, Matches, Stored, Indexes, IdOf, Limit;
    var scan := ScanList(s.events, f);
    var sorted, answer := SortByTime(scan), ScanAnswer(s, f);
    ScanTies(s.events, f);
    SortByTimeSorts(IdOf, scan);
    forall e
      ensures e in sorted <==> Stored(s, e) && Matches(f, e)
    {
      SortByTimeHolds(scan, e);
      ScanHoldsMatches(s, f, e);
    }
    assert forall i :: 0 <= i < |answer| ==> answer[i] == sorted[|sorted| - 1 - i] && answer[i] in sorted;
    forall k | |sorted| - |answer| <= k < |sorted|
      ensures sorted[k] in answer
    {
      assert answer[|sorted| - 1 - k] == sorted[k];
    }
    forall e | e in sorted && e !in answer
      ensures |answer| == Limit(f) && forall x <- answer :: Earlier(e, x)
    {
      var k :| 0 <= k < |sorted| && sorted[k] == e;
    }
  }

  // ----- where they part -----

  /** An event of one channel at the last instant, under the last id. */
  function TopEvent(channel: Bytes): Event {
    Event(Hex.Encode(Repeat(255, 32)), [], U64_MAX, 0, [[H_TAG, channel]], [], [])
  }

  function ChannelFilter(channel: Bytes): Filter {
    Filter(None, None, None, None, None, None, map[[HASH_SIGN] + H_TAG := [channel]])
  }

  lemma ChannelFilterMatches(channel: Bytes, e: Event)
    ensures Matches(ChannelFilter(channel), e) <==> HasTag(e, H_TAG, [channel])
    ensures TagValues(ChannelFilter(channel), H_TAG) == [channel] && Limit(ChannelFilter(channel)) == 500
  {
    var key := [HASH_SIGN] + H_TAG;
    assert key[1..] == H_TAG && key in ChannelFilter(channel).tagFilters;
  }

  lemma PutOne(e: Event)
    requires ParseId(e.id).Some?
    ensures PutAll([e]).events == [(IdOf(e), e)]
  {
    assert [e][..0] == [];
    assert PutAll([]) == EMPTY;
  }

  /** The two paths do part: a relay that took one event at the very top answers it to a
      full scan and not to the query for its channel. */
  lemma TopEventIsMissed(channel: Bytes)
    ensures var s, f := PutAll([TopEvent(channel)]), ChannelFilter(channel);
            RangeAnswer(s, f, channel) != ScanAnswer(s, f)
  {
    hide PutAll, Matches, RangeAnswer, ScanAnswer, Limit, Valid, TopEvent, IdOf, AtTop, OneValue;
    var e, f := TopEvent(channel), ChannelFilter(channel);
    var s := PutAll([e]);
    TopEventFacts(channel);
    ChannelFilterMatches(channel, e);
    assert s.events[0].1 == e && Stored(s, e);
    IndexEqualsScan(s, f, channel);
  }

  lemma TopEventFacts(channel: Bytes)
    ensures var e := TopEvent(channel);
            && Valid(PutAll([e])) && PutAll([e]).events == [(IdOf(e), e)]
            && OneValue(e.tags, H_TAG)
            && AtTop(e) && HasTag(e, H_TAG, [channel])
  {
    hide PutAll, Valid, Hex.Encode, Hex.Decode;
    var e := TopEvent(channel);
    Hex.RoundTrip(Repeat(255, 32));
    PutAllValid([e]);
    PutOne(e);
    var tag := e.tags[0];
    assert tag in e.tags && Names(tag, H_TAG) && tag[1] in [channel];
  }

  /** An event that names a second channel, under its id of zeros. */
  function TwoChannels(first: Bytes, second: Bytes): Event {
    Event(Hex.Encode(Repeat(0, 32)), [], 0, 0, [[H_TAG, first], [H_TAG, second]], [], [])
  }

  /** So do they for the second channel of an event that names two, unless the names go on
      after one another with a NUL byte. */
  lemma SecondChannelIsMissed(first: Bytes, second: Bytes)
    requires first != second && !(first + [0] <= second) && !(second + [0] <= first)
    ensures var s, f := PutAll([TwoChannels(first, second)]), ChannelFilter(second);
            RangeAnswer(s, f, second) != ScanAnswer(s, f)
  {
    hide PutAll, Matches, RangeAnswer, ScanAnswer, Limit, Valid, IdOf, TwoChannels, InRange, ChanKey, Due, InStep;
    var e, f := TwoChannels(first, second), ChannelFilter(second);
    var s := PutAll([e]);
    TwoChannelsFacts(first, second);
    ChannelFilterMatches(second, e);
    if Reached(second, e) {
      StrayNeedsNul(second, first, e.createdAt, IdOf(e));
    }
    IndexEqualsScanIff(s, f, second);
    OneIsDue(s, f, e);
  }

  lemma TwoChannelsFacts(first: Bytes, second: Bytes)
    ensures var e := TwoChannels(first, second);
            && Valid(PutAll([e])) && PutAll([e]).events == [(IdOf(e), e)]
            && Channel(e) == Some(first) && HasTag(e, H_TAG, [second])
  {
    hide *;
    IdParses(TwoChannels(first, second), first, second);
    PutAllValid([TwoChannels(first, second)]);
    PutOne(TwoChannels(first, second));
  }

  lemma IdParses(e: Event, first: Bytes, second: Bytes)
    requires e == TwoChannels(first, second)
    ensures ParseId(e.id).Some? && Channel(e) == Some(first) && HasTag(e, H_TAG, [second])
  {
    hide Hex.Encode, Hex.Decode;
    Hex.RoundTrip(Repeat(0, 32));
    var tag := e.tags[1];
    assert tag in e.tags && Names(tag, H_TAG) && tag[1] in [second];
  }

  lemma OneIsDue(s: Store, f: Filter, e: Event)
    requires s.events == [(IdOf(e), e)] && Matches(f, e) && Limit(f) > 0
    ensures Due(s, f, e)
  {
    hide Matches, IdOf, Limit, EarlierBy;
    assert s.events[0].1 == e && Stored(s, e);
    if EarlierBy(IdOf, e, e) {
      EarlierAsymmetric(IdOf, e, e);
    }
    assert Newer(s, f, e) == {};
  }

  // ----- the store as the source updates it -----

  class Relay {
    var events: Table<Event>
    var byChan: Table<Bytes>

    ghost function View(): Store
      reads this
    {
      Store(events, byChan)
    }

    constructor ()
      ensures View() == EMPTY && Valid(View())
    {
      events, byChan := [], [];
    }

    method PutEvent(e: Event) returns (r: Result<bool, ()>)
      requires Valid(View())
      modifies this
      ensures Valid(View()) && (View(), r) == Put(old(View()), e)
    {
      PutKeepsValid(View(), e);
      var id := ParseId(e.id);
      if id.None? {
        return Err(());
      }
      if Lookup(events, id.value).Some? {
        return Ok(false);
      }
      events := InsertRow(events, id.value, e);
      if Channel(e).Some? {
        byChan := InsertRow(byChan, ChanKey(Channel(e).value, e.createdAt, id.value), id.value);
      }
      return Ok(true);
    }

    method Query(f: Filter) returns (out: seq<Event>)
      ensures var channels := TagValues(f, H_TAG);
              out == if |channels| == 1 then RangeAnswer(View(), f, channels[0]) else ScanAnswer(View(), f)
    {
      hide Matches, Lookup, SortByTime, InRange, Less;
      var channels := TagValues(f, H_TAG);
      var found: seq<Event> := [];
      if |channels| == 1 {
        for i := 0 to |byChan|
          invariant found == RangeList(events, byChan[..i], f, channels[0])
        {
          assert byChan[..i + 1][..i] == byChan[..i];
          if InRange(channels[0], byChan[i].0) {
            var stored := Lookup(events, byChan[i].1);
            if stored.Some? && Matches(f, stored.value) {
              found := found + [stored.value];
            }
          }
        }
        assert byChan[..|byChan|] == byChan;
      } else {
        for i := 0 to |events|
          invariant found == ScanList(events[..i], f)
        {
          assert events[..i + 1][..i] == events[..i];
          if Matches(f, events[i].1) {
            found := found + [events[i].1];
          }
        }
        assert events[..|events|] == events;
      }
      out := Reversed(SortByTime(found));
      if |out| > Limit(f) {
        out := out[..Limit(f)];
      }
    }
  }
}
