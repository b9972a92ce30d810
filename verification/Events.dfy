/** Relay events and the filters that select them. Text is UTF-8 bytes. */
module Events {
  import opened Common

  type U64 = n: nat | n <= 0xffff_ffff_ffff_ffff

  datatype Event = Event(id: Bytes, pubkey: Bytes, createdAt: U64, kind: nat, tags: seq<seq<Bytes>>,
                         content: Bytes, sig: Bytes)

  /** The text `h`, the tag that names a channel, and the filter key `#h`. */
  const H_TAG: Bytes := [104]
  const HASH_SIGN: byte := 35

  /** The tag is called `name` and has a value. */
  predicate Names(tag: seq<Bytes>, name: Bytes) {
    |tag| >= 2 && tag[0] == name
  }

  /** `tag_value`: the value of the first tag of that name that has one. */
  function TagValue(tags: seq<seq<Bytes>>, name: Bytes): Option<Bytes> {
    if tags == [] then None
    else if Names(tags[0], name) then Some(tags[0][1])
    else TagValue(tags[1..], name)
  }

  datatype Filter = Filter(ids: Option<seq<Bytes>>, authors: Option<seq<Bytes>>, kinds: Option<seq<nat>>,
                           since: Option<nat>, until: Option<nat>, limit: Option<nat>,
                           tagFilters: map<Bytes, seq<Bytes>>)

  function TagValues(f: Filter, letter: Bytes): seq<Bytes> {
    var key := [HASH_SIGN] + letter;
    if key in f.tagFilters then f.tagFilters[key] else []
  }

  predicate HasTag(e: Event, name: Bytes, want: seq<Bytes>) {
    exists tag <- e.tags :: Names(tag, name) && tag[1] in want
  }

  /** `Filter::matches`: every given condition holds, bounds included. */
  predicate Matches(f: Filter, e: Event) {
    && (f.ids.Some? ==> exists i <- f.ids.value :: i <= e.id)
    && (f.authors.Some? ==> exists a <- f.authors.value :: a <= e.pubkey)
    && (f.kinds.Some? ==> e.kind in f.kinds.value)
    && (f.since.Some? ==> f.since.value <= e.createdAt)
    && (f.until.Some? ==> e.createdAt <= f.until.value)
    && (forall key <- f.tagFilters :: key != [] && key[0] == HASH_SIGN ==> HasTag(e, key[1..], f.tagFilters[key]))
  }

  /** At most one distinct value of the tag. */
  ghost predicate OneValue(tags: seq<seq<Bytes>>, name: Bytes) {
    forall s, t :: s in tags && t in tags && Names(s, name) && Names(t, name) ==> s[1] == t[1]
  }

  lemma {:induction false} TagValueIsATag(tags: seq<seq<Bytes>>, name: Bytes)
    ensures TagValue(tags, name).Some? ==> exists t <- tags :: Names(t, name) && t[1] == TagValue(tags, name).value
    ensures TagValue(tags, name).None? ==> forall t <- tags :: !Names(t, name)
    decreases |tags|
  {
    if tags != [] {
      assert tags == [tags[0]] + tags[1..];
      TagValueIsATag(tags[1..], name);
    }
  }

  /** An event matching a filter for one channel is of that channel, if it names one. */
  lemma MatchNamesChannel(f: Filter, e: Event, channel: Bytes)
    requires Matches(f, e) && TagValues(f, H_TAG) == [channel] && OneValue(e.tags, H_TAG)
    ensures TagValue(e.tags, H_TAG) == Some(channel)
  {
    var key := [HASH_SIGN] + H_TAG;
    assert key[1..] == H_TAG && HasTag(e, H_TAG, [channel]);
    TagValueIsATag(e.tags, H_TAG);
  }
}
