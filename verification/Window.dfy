/** Fetching a window `[from, to)` from the relay, one page at a time, newest first. */
module Window {
  import opened Common
  import opened Events
  import RelayStore
  import Hex

  const PAGE_LIMIT: nat := 200
  const MAX_PAGES: nat := 256

  /** A page source: the answer to a request for `since..=until`. */
  type Pages = (nat, nat) -> seq<Event>

  predicate Within(e: Event, from: nat, to: nat) {
    from <= e.createdAt < to
  }

  /** The relay's promise: events of the channel within the bounds, at most `limit`, and
      one is left out only when the page is full and nothing older is on it. */
  ghost predicate PageOk(all: seq<Event>, since: nat, until: nat, limit: nat, page: seq<Event>) {
    && |page| <= limit
    && (forall e <- page :: e in all && Within(e, since, until + 1))
    && (forall e <- all :: Within(e, since, until + 1) && e !in page ==>
          |page| == limit && forall x <- page :: e.createdAt <= x.createdAt)
  }

  ghost predicate Serves(all: seq<Event>, limit: nat, pages: Pages) {
    forall since, until :: PageOk(all, since, until, limit, pages(since, until))
  }

  function MinTime(page: seq<Event>): (t: nat)
    requires page != []
    ensures (forall e <- page :: t <= e.createdAt) && exists e <- page :: e.createdAt == t
  {
    if |page| == 1 then page[0].createdAt
    else
      var n := |page| - 1;
      var rest := MinTime(page[..n]);
      assert page == page[..n] + [page[n]];
      if page[n].createdAt < rest then page[n].createdAt else rest
  }

  /** The backward walk from `cursor`, at most `left` pages. */
  function Walk(pages: Pages, from: nat, cursor: nat, left: nat, limit: nat): seq<Event>
    decreases left
  {
    if left == 0 || cursor == 0 || cursor - 1 < from then []
    else
      var page := pages(from, cursor - 1);
      if page == [] then []
      else if |page| < limit || MinTime(page) <= from then page
      else page + Walk(pages, from, MinTime(page), left - 1, limit)
  }

  /** How many requests the walk makes. */
  function RequestsMade(pages: Pages, from: nat, cursor: nat, left: nat, limit: nat): nat
    decreases left
  {
    if left == 0 || cursor == 0 || cursor - 1 < from then 0
    else
      var page := pages(from, cursor - 1);
      if page == [] || |page| < limit || MinTime(page) <= from then 1
      else 1 + RequestsMade(pages, from, MinTime(page), left - 1, limit)
  }

  /** The walk makes as many requests as its pages need: none for an empty window, each but
      the last for a full page, and no more than the source allows. */
  lemma {:induction false} RequestsCount(pages: Pages, from: nat, cursor: nat, left: nat, limit: nat)
    requires forall since, until :: |pages(since, until)| <= limit
    ensures var made, fetched := RequestsMade(pages, from, cursor, left, limit), Walk(pages, from, cursor, left, limit);
            && made <= left && |fetched| <= limit * made
            && (made == 0 <==> left == 0 || cursor == 0 || cursor - 1 < from)
            && (made > 0 ==> limit * (made - 1) <= |fetched|)
    decreases left
  {
    hide MinTime, Walk, RequestsMade;
    WalkUnfolds(pages, from, cursor, left, limit);
    if left > 0 && cursor > 0 && cursor - 1 >= from {
      var page := pages(from, cursor - 1);
      if page != [] && |page| >= limit && MinTime(page) > from {
        RequestsCount(pages, from, MinTime(page), left - 1, limit);
        OneMore(limit, RequestsMade(pages, from, MinTime(page), left - 1, limit));
      }
    }
  }

  lemma OneMore(limit: nat, made: nat)
    ensures limit * (1 + made) == limit + limit * made && limit * (1 + made - 1) == limit * made
    ensures made > 0 ==> limit * made == limit + limit * (made - 1)
  {
  }

  /** The walk makes a request that fails. */
  predicate Interrupted(pages: Pages, from: nat, to: nat, limit: nat, failing: set<nat>) {
    exists i <- failing :: i < RequestsMade(pages, from, to, MAX_PAGES, limit)
  }

  lemma WalkUnfolds(pages: Pages, from: nat, cursor: nat, left: nat, limit: nat)
    ensures var whole := Walk(pages, from, cursor, left, limit);
            var made := RequestsMade(pages, from, cursor, left, limit);
            if left == 0 || cursor == 0 || cursor - 1 < from then whole == [] && made == 0
            else
              var page := pages(from, cursor - 1);
              if page == [] || |page| < limit || MinTime(page) <= from then whole == page && made == 1
              else
                && whole == page + Walk(pages, from, MinTime(page), left - 1, limit)
                && made == 1 + RequestsMade(pages, from, MinTime(page), left - 1, limit)
  {
  }

  /** `fetch_window`; the requests numbered in `failing` fail. */
  method FetchWindow(pages: Pages, from: nat, to: nat, limit: nat, failing: set<nat>)
    returns (r: Result<seq<Event>, ()>)
    ensures r == if Interrupted(pages, from, to, limit, failing) then Err(())
                 else Ok(Walk(pages, from, to, MAX_PAGES, limit))
  {
    hide MinTime, Walk, RequestsMade;
    var out: seq<Event> := [];
    var cursor: nat := to;
    ghost var whole, made := Walk(pages, from, to, MAX_PAGES, limit), RequestsMade(pages, from, to, MAX_PAGES, limit);
    for i := 0 to MAX_PAGES
      invariant whole == out + Walk(pages, from, cursor, MAX_PAGES - i, limit)
      invariant made == i + RequestsMade(pages, from, cursor, MAX_PAGES - i, limit)
      invariant forall k <- failing :: k >= i
    {
      WalkUnfolds(pages, from, cursor, MAX_PAGES - i, limit);
      assert out + [] == out;
      if cursor == 0 || cursor - 1 < from {
        return Ok(out);
      }
      if i in failing {
        return Err(());
      }
      var page := pages(from, cursor - 1);
      if page == [] {
        return Ok(out);
      }
      out := out + page;
      if |page| < limit || MinTime(page) <= from {
        return Ok(out);
      }
      cursor := MinTime(page);
    }
    WalkUnfolds(pages, from, cursor, 0, limit);
    return Ok(out);
  }

  // ----- when the walk is complete -----

  /** The oldest second of the page is wholly on it. */
  ghost predicate WholeSecond(all: seq<Event>, page: seq<Event>)
    requires page != []
  {
    forall e <- all :: e.createdAt == MinTime(page) ==> e in page
  }

  /** No cut between pages splits a second, and the pages suffice. */
  ghost predicate Clean(all: seq<Event>, pages: Pages, from: nat, cursor: nat, left: nat, limit: nat)
    decreases left
  {
    if cursor == 0 || cursor - 1 < from then true
    else if left == 0 then forall e <- all :: !Within(e, from, cursor)
    else
      var page := pages(from, cursor - 1);
      || |page| < limit
      || page == []
      || (WholeSecond(all, page) && (MinTime(page) <= from || Clean(all, pages, from, MinTime(page), left - 1, limit)))
  }

  lemma {:induction false} WalkHolds(all: seq<Event>, pages: Pages, from: nat, cursor: nat, left: nat, limit: nat,
                                     e: Event)
    requires Serves(all, limit, pages) && e in Walk(pages, from, cursor, left, limit)
    ensures e in all && Within(e, from, cursor)
    decreases left
  {
    var page := pages(from, cursor - 1);
    assert PageOk(all, from, cursor - 1, limit, page);
    if e !in page {
      WalkHolds(all, pages, from, MinTime(page), left - 1, limit, e);
      var x :| x in page && x.createdAt == MinTime(page);
    }
  }

  ghost predicate Complete(all: seq<Event>, from: nat, cursor: nat, out: seq<Event>) {
    forall e <- all :: Within(e, from, cursor) ==> e in out
  }

  /** The walk finds every event of the window iff no page cut splits a second and the
      pages suffice. */
  lemma {:induction false} CompleteIffClean(all: seq<Event>, pages: Pages, from: nat, cursor: nat, left: nat,
                                            limit: nat)
    requires Serves(all, limit, pages) && limit > 0
    ensures Complete(all, from, cursor, Walk(pages, from, cursor, left, limit)) <==>
            Clean(all, pages, from, cursor, left, limit)
    decreases left
  {
    hide MinTime, Serves, PageOk;
    if left > 0 && cursor > 0 && cursor - 1 >= from {
      var page := pages(from, cursor - 1);
      if |page| < limit || MinTime(page) <= from {
        LastPage(all, pages, from, cursor, left, limit);
      } else {
        AtMostLimit(all, pages, from, cursor, limit);
        CompleteIffClean(all, pages, from, MinTime(page), left - 1, limit);
        FullPage(all, pages, from, cursor, left, limit);
      }
    }
  }

  lemma AtMostLimit(all: seq<Event>, pages: Pages, from: nat, cursor: nat, limit: nat)
    requires Serves(all, limit, pages) && cursor > 0
    ensures |pages(from, cursor - 1)| <= limit
  {
    assert PageOk(all, from, cursor - 1, limit, pages(from, cursor - 1));
  }

  /** A short page ends the walk with nothing missed; a full one that reaches `from` ends
      it too, and misses only events of its oldest second. */
  lemma LastPage(all: seq<Event>, pages: Pages, from: nat, cursor: nat, left: nat, limit: nat)
    requires Serves(all, limit, pages) && limit > 0 && left > 0 && cursor > 0 && cursor - 1 >= from
    requires |pages(from, cursor - 1)| < limit || MinTime(pages(from, cursor - 1)) <= from
    ensures Complete(all, from, cursor, Walk(pages, from, cursor, left, limit)) <==>
            Clean(all, pages, from, cursor, left, limit)
  {
    hide MinTime;
    var page := pages(from, cursor - 1);
    assert PageOk(all, from, cursor - 1, limit, page);
    assert Walk(pages, from, cursor, left, limit) == page;
    if |page| < limit {
      assert Complete(all, from, cursor, page);
    } else {
      assert MinTime(page) == from;
      assert Complete(all, from, cursor, page) <==> WholeSecond(all, page);
    }
  }

  lemma FullPage(all: seq<Event>, pages: Pages, from: nat, cursor: nat, left: nat, limit: nat)
    requires Serves(all, limit, pages) && limit > 0 && left > 0 && cursor > 0 && cursor - 1 >= from
    requires |pages(from, cursor - 1)| == limit && MinTime(pages(from, cursor - 1)) > from
    ensures var page := pages(from, cursor - 1);
            var rest := Walk(pages, from, MinTime(page), left - 1, limit);
            Complete(all, from, cursor, Walk(pages, from, cursor, left, limit)) <==>
              WholeSecond(all, page) && Complete(all, from, MinTime(page), rest)
  {
    hide MinTime;
    var page := pages(from, cursor - 1);
    var min := MinTime(page);
    var rest := Walk(pages, from, min, left - 1, limit);
    var out := Walk(pages, from, cursor, left, limit);
    assert out == page + rest;
    hide Walk;
    assert PageOk(all, from, cursor - 1, limit, page);
    forall e | e in rest
      ensures e.createdAt < min
    {
      WalkHolds(all, pages, from, min, left - 1, limit, e);
    }
    assert forall e :: e in out <==> e in page || e in rest;
  }

  // ----- an event that is missed -----

  lemma {:induction false} SetOfSeq(s: seq<Event>)
    ensures |set e | e in s| <= |s|
    decreases |s|
  {
    if s != [] {
      var n := |s| - 1;
      SetOfSeq(s[..n]);
      assert s == s[..n] + [s[n]];
      assert (set e | e in s) == (set e | e in s[..n]) + {s[n]};
    }
  }

  lemma {:induction false} OneIsOutside(a: set<Event>, b: set<Event>) returns (e: Event)
    requires |a| > |b|
    ensures e in a && e !in b
    decreases |a|
  {
    e :| e in a;
    if e in b {
      e := OneIsOutside(a - {e}, b - {e});
    }
  }

  /** The walk misses what a page cut leaves of a second: with more events in one second
      than a page holds, every source that keeps its promise leaves one unfetched. */
  lemma SplitSecondLosesEvent(all: seq<Event>, pages: Pages, t: nat, from: nat, to: nat, left: nat, limit: nat)
      returns (lost: Event)
    requires Serves(all, limit, pages) && limit > 0 && from < t < to
    requires |set e | e in all| > limit && (forall e <- all :: e.createdAt == t)
    ensures lost in all && lost !in Walk(pages, from, to, left, limit)
  {
    hide MinTime, Serves, Walk;
    var page := if left == 0 then [] else pages(from, to - 1);
    OnePageOnly(all, pages, t, from, to, left, limit);
    assert PageOk(all, from, to - 1, limit, pages(from, to - 1)) by {
      ServesPage(all, limit, pages, from, to - 1);
    }
    SetOfSeq(page);
    lost := OneIsOutside(set e | e in all, set e | e in page);
  }

  lemma ServesPage(all: seq<Event>, limit: nat, pages: Pages, since: nat, until: nat)
    requires Serves(all, limit, pages)
    ensures PageOk(all, since, until, limit, pages(since, until))
  {
    hide PageOk;
  }

  /** With all events in one second the first page is the last one that holds any. */
  lemma OnePageOnly(all: seq<Event>, pages: Pages, t: nat, from: nat, to: nat, left: nat, limit: nat)
    requires Serves(all, limit, pages) && from < t < to && (forall e <- all :: e.createdAt == t)
    ensures Walk(pages, from, to, left, limit) == if left == 0 then [] else pages(from, to - 1)
  {
    hide Serves, Walk, PageOk, MinTime;
    WalkUnfolds(pages, from, to, left, limit);
    if left > 0 {
      var page := pages(from, to - 1);
      ServesPage(all, limit, pages, from, to - 1);
      ServesPage(all, limit, pages, from, t - 1);
      NothingBelow(all, t, from, limit, pages(from, t - 1));
      PageTime(all, t, from, to, limit, page);
      WalkUnfolds(pages, from, t, left - 1, limit);
      assert page + [] == page;
    }
  }

  lemma NothingBelow(all: seq<Event>, t: nat, from: nat, limit: nat, page: seq<Event>)
    requires 0 < t && PageOk(all, from, t - 1, limit, page) && (forall e <- all :: e.createdAt == t)
    ensures page == []
  {
    if page != [] {
      var m := MinTime(page);
      assert false;
    }
  }

  lemma PageTime(all: seq<Event>, t: nat, from: nat, to: nat, limit: nat, page: seq<Event>)
    requires 0 < to && PageOk(all, from, to - 1, limit, page) && (forall e <- all :: e.createdAt == t)
    ensures page != [] ==> MinTime(page) == t
  {
  }

  // ----- the relay is such a page source -----

  /** The request for one page. */
  function PageFilter(channel: Bytes, since: nat, until: nat, limit: nat): Filter {
    Filter(None, None, None, Some(since), Some(until), Some(limit), map[[HASH_SIGN] + H_TAG := [channel]])
  }

  ghost predicate OfChannel(s: RelayStore.Store, channel: Bytes, e: Event) {
    RelayStore.Stored(s, e) && HasTag(e, H_TAG, [channel])
  }

  lemma PageMatches(channel: Bytes, since: nat, until: nat, limit: nat, e: Event)
    ensures Matches(PageFilter(channel, since, until, limit), e) <==>
            HasTag(e, H_TAG, [channel]) && since <= e.createdAt <= until
    ensures TagValues(PageFilter(channel, since, until, limit), H_TAG) == [channel]
  {
    var key := [HASH_SIGN] + H_TAG;
    assert key[1..] == H_TAG;
    assert key in PageFilter(channel, since, until, limit).tagFilters;
  }

  /** The relay as a page source. */
  function RelayPages(s: RelayStore.Store, channel: Bytes, limit: nat): Pages {
    (since: nat, until: nat) => RelayStore.RangeAnswer(s, PageFilter(channel, since, until, limit), channel)
  }

  /** The relay's own answers keep the promise the walk relies on. */
  lemma RelayServes(s: RelayStore.Store, channel: Bytes, all: seq<Event>, limit: nat)
    requires RelayStore.Valid(s) && (forall r <- s.events :: OneValue(r.1.tags, H_TAG)) && 0 < limit <= 2000
    requires forall e :: e in all <==> OfChannel(s, channel, e)
    requires forall e <- all :: !RelayStore.AtTop(e)
    ensures Serves(all, limit, RelayPages(s, channel, limit))
  {
    hide *;
    forall since, until
      ensures PageOk(all, since, until, limit,
                     RelayStore.RangeAnswer(s, PageFilter(channel, since, until, limit), channel))
    {
      RelayServesPage(s, channel, all, limit, since, until);
    }
    ServesByPage(s, channel, all, limit);
  }

  lemma ServesByPage(s: RelayStore.Store, channel: Bytes, all: seq<Event>, limit: nat)
    requires forall since, until ::
               PageOk(all, since, until, limit,
                      RelayStore.RangeAnswer(s, PageFilter(channel, since, until, limit), channel))
    ensures Serves(all, limit, RelayPages(s, channel, limit))
  {
    hide PageOk, PageFilter, RelayStore.RangeAnswer;
  }

  lemma RelayServesPage(s: RelayStore.Store, channel: Bytes, all: seq<Event>, limit: nat, since: nat, until: nat)
    requires RelayStore.Valid(s) && (forall r <- s.events :: OneValue(r.1.tags, H_TAG)) && 0 < limit <= 2000
    requires forall e :: e in all <==> OfChannel(s, channel, e)
    requires forall e <- all :: !RelayStore.AtTop(e)
    ensures PageOk(all, since, until, limit,
                   RelayStore.RangeAnswer(s, PageFilter(channel, since, until, limit), channel))
  {
    hide Matches, RelayStore.Valid, RelayStore.Stored, RelayStore.RangeAnswer, RelayStore.ScanAnswer,
      OneValue, TagValues, HasTag, RelayStore.AtTop, RelayStore.Earlier;
    var f := PageFilter(channel, since, until, limit);
    forall e
      ensures Matches(f, e) <==> HasTag(e, H_TAG, [channel]) && since <= e.createdAt <= until
    {
      PageMatches(channel, since, until, limit, e);
    }
    PageMatches(channel, since, until, limit, Event([], [], 0, 0, [], [], []));
    RelayStore.IndexEqualsScan(s, f, channel);
    assert RelayStore.Limit(f) == limit;
    forall e | RelayStore.Stored(s, e) && Matches(f, e)
      ensures e in all
    {
      assert OfChannel(s, channel, e);
    }
    RelayStore.AnswerIsNewestMatching(s, f);
    var page := RelayStore.ScanAnswer(s, f);
    forall e, x | RelayStore.Earlier(e, x)
      ensures e.createdAt <= x.createdAt
    {
      NotLater(e, x);
    }
    hide RelayStore.Limit;
    assert forall e <- all :: Within(e, since, until + 1) ==> RelayStore.Stored(s, e) && Matches(f, e);
  }

  lemma NotLater(e: Event, x: Event)
    requires RelayStore.Earlier(e, x)
    ensures e.createdAt <= x.createdAt
  {
  }

  // ----- an event the relay's own pages lose -----

  const CHANNEL: Bytes := [104]

  /** An event of the fifth second, under an id of its own. */
  function Numbered(i: nat): Event
    requires i < 256
  {
    Event(Hex.Encode(Repeat(i as byte, 32)), [], 5, 0, [[H_TAG, CHANNEL]], [], [])
  }

  lemma NumberedId(i: nat)
    requires i < 256
    ensures var e := Numbered(i);
            && RelayStore.ParseId(e.id).Some? && RelayStore.IdOf(e) == Repeat(i as byte, 32)
            && !RelayStore.AtTop(e) && HasTag(e, H_TAG, [CHANNEL]) && OneValue(e.tags, H_TAG)
  {
    hide Hex.Encode, Hex.Decode;
    Hex.RoundTrip(Repeat(i as byte, 32));
    var e := Numbered(i);
    assert e.tags[0] in e.tags && Names(e.tags[0], H_TAG) && e.tags[0][1] in [CHANNEL];
  }

  lemma NumberedApart(i: nat, j: nat)
    requires i < j < 256
    ensures RelayStore.IdOf(Numbered(i)) != RelayStore.IdOf(Numbered(j))
  {
    hide RelayStore.IdOf, Numbered;
    NumberedId(i);
    NumberedId(j);
    assert Repeat(i as byte, 32)[0] != Repeat(j as byte, 32)[0];
  }

  /** For instance 201 events of one second put into a relay: at the page size of the
      source, one of them never comes out of its pages. */
  lemma EventIsLost() returns (all: seq<Event>, lost: Event)
    ensures lost in all && Within(lost, 0, 10)
    ensures RelayStore.Stored(RelayStore.PutAll(all), lost)
    ensures var pages := RelayPages(RelayStore.PutAll(all), CHANNEL, PAGE_LIMIT);
            lost !in Walk(pages, 0, 10, MAX_PAGES, PAGE_LIMIT)
  {
    hide Serves, Walk, Numbered, RelayStore.PutAll, RelayStore.Stored, RelayPages, RelayStore.IdOf;
    all := seq(201, i requires 0 <= i < 201 => Numbered(i));
    var s := RelayStore.PutAll(all);
    NumberedStored(all, s);
    NumberedCount(all);
    lost := SplitSecondLosesEvent(all, RelayPages(s, CHANNEL, PAGE_LIMIT), 5, 0, 10, MAX_PAGES, PAGE_LIMIT);
  }

  lemma NumberedStored(all: seq<Event>, s: RelayStore.Store)
    requires |all| == 201 && (forall i :: 0 <= i < 201 ==> all[i] == Numbered(i)) && s == RelayStore.PutAll(all)
    ensures Serves(all, PAGE_LIMIT, RelayPages(s, CHANNEL, PAGE_LIMIT))
    ensures forall e <- all :: e.createdAt == 5 && RelayStore.Stored(s, e)
  {
    hide RelayStore.PutAll, RelayStore.Valid, RelayStore.ParseId, RelayStore.IdOf, RelayStore.AtTop, HasTag, OneValue,
         Serves, Hex.Encode;
    forall i | 0 <= i < 201
      ensures RelayStore.ParseId(all[i].id).Some? && !RelayStore.AtTop(all[i])
      ensures HasTag(all[i], H_TAG, [CHANNEL]) && OneValue(all[i].tags, H_TAG)
    {
      NumberedId(i);
    }
    forall i, j | 0 <= i < j < 201
      ensures RelayStore.IdOf(all[i]) != RelayStore.IdOf(all[j])
    {
      NumberedApart(i, j);
    }
    RelayStore.PutAllValid(all);
    RelayStore.PutAllStores(all);
    forall r <- s.events
      ensures OneValue(r.1.tags, H_TAG)
    {
      assert r.1 in all;
      var i :| 0 <= i < 201 && all[i] == r.1;
    }
    RelayServes(s, CHANNEL, all, PAGE_LIMIT);
  }

  lemma NumberedCount(all: seq<Event>)
    requires |all| == 201 && forall i :: 0 <= i < 201 ==> all[i] == Numbered(i)
    ensures |set e | e in all| == 201
  {
    hide Numbered, RelayStore.IdOf;
    forall i, j | 0 <= i < j < |all|
      ensures all[i] != all[j]
    {
      NumberedApart(i, j);
    }
    RelayStore.CountDistinct(all);
  }
}
