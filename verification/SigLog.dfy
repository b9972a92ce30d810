/** The MAYO signature memo: a FIFO cache backed by an append-only log that survives
    crashes. Records are `[len: u32 LE][msg][sig]`. */
module SigLog {
  import opened Common
  import opened Block

  const MAYO_SIG_BYTES: nat := 186
  const MAX_LOGGED_MSG: nat := 4096
  const TWO_32: nat := 0x1_0000_0000

  type Sig = s: Bytes | |s| == 186 witness seq(186, i => 0)

  datatype Record = Record(msg: Bytes, sig: Sig)

  // ----- the record format -----

  /** `encode_record`; the length is cut to 32 bits. */
  function EncodeRecord(r: Record): Bytes {
    LittleEndian(|r.msg| % TWO_32, 4) + (r.msg + r.sig)
  }

  function EncodeAll(rs: seq<Record>): Bytes {
    if rs == [] then [] else EncodeRecord(rs[0]) + EncodeAll(rs[1..])
  }

  /** The records `open` reads before it stops. */
  function Parse(data: Bytes): seq<Record>
    decreases |data|
  {
    if |data| < 4 then []
    else
      var len := FromLittleEndian(data[..4]);
      if len > MAX_LOGGED_MSG || |data| < 4 + len + MAYO_SIG_BYTES then []
      else
        var end := 4 + len + MAYO_SIG_BYTES;
        [Record(data[4..4 + len], data[4 + len..end])] + Parse(data[end..])
  }

  predicate Loggable(r: Record) {
    |r.msg| <= MAX_LOGGED_MSG
  }

  predicate AllLoggable(rs: seq<Record>) {
    forall r <- rs :: Loggable(r)
  }

  lemma Pow256Of4()
    ensures Pow256(4) == TWO_32
  {
    assert Pow256(2) == 65_536;
  }

  lemma LengthReads(r: Record, data: Bytes)
    requires Loggable(r) && |data| >= 4 && data[..4] == LittleEndian(|r.msg| % TWO_32, 4)
    ensures FromLittleEndian(data[..4]) == |r.msg|
  {
    hide LittleEndian, FromLittleEndian, Pow256;
    Pow256Of4();
    LittleEndianRoundTrip(|r.msg|, 4);
  }

  predicate Stops(data: Bytes) {
    |data| < 4 || FromLittleEndian(data[..4]) > MAX_LOGGED_MSG
    || |data| < 4 + FromLittleEndian(data[..4]) + MAYO_SIG_BYTES
  }

  lemma ParseStops(data: Bytes)
    requires Stops(data)
    ensures Parse(data) == []
  {
    hide FromLittleEndian;
  }

  lemma ParseGoesOn(data: Bytes, len: nat, end: nat)
    requires !Stops(data) && len == FromLittleEndian(data[..4]) && end == 4 + len + MAYO_SIG_BYTES
    ensures Parse(data) == [Record(data[4..4 + len], data[4 + len..end])] + Parse(data[end..])
  {
    hide FromLittleEndian;
  }

  /** Reading one whole record. */
  lemma ParseRecord(r: Record, rest: Bytes)
    requires Loggable(r)
    ensures Parse(EncodeRecord(r) + rest) == [r] + Parse(rest)
  {
    hide LittleEndian, FromLittleEndian;
    var data := EncodeRecord(r) + rest;
    var len := |r.msg|;
    assert data[..4] == LittleEndian(len % TWO_32, 4);
    LengthReads(r, data);
    assert data[4..4 + len] == r.msg;
    assert data[4 + len..4 + len + MAYO_SIG_BYTES] == r.sig;
    assert data[4 + len + MAYO_SIG_BYTES..] == rest;
  }

  /** A record cut short is not read at all. */
  lemma ParseTorn(r: Record, n: nat)
    requires Loggable(r) && n < |EncodeRecord(r)|
    ensures Parse(EncodeRecord(r)[..n]) == []
  {
    hide LittleEndian, FromLittleEndian;
    var data := EncodeRecord(r)[..n];
    if n >= 4 {
      assert data[..4] == LittleEndian(|r.msg| % TWO_32, 4);
      LengthReads(r, data);
    }
  }

  /** Whole records followed by anything parse to the records, then the rest. */
  lemma {:induction false} ParseAll(rs: seq<Record>, rest: Bytes)
    requires AllLoggable(rs)
    ensures Parse(EncodeAll(rs) + rest) == rs + Parse(rest)
    decreases |rs|
  {
    hide Parse, EncodeRecord;
    if rs == [] {
      assert EncodeAll(rs) + rest == rest;
    } else {
      var tail := EncodeAll(rs[1..]) + rest;
      assert EncodeAll(rs) + rest == EncodeRecord(rs[0]) + tail;
      ParseRecord(rs[0], tail);
      ParseAll(rs[1..], rest);
      assert rs + Parse(rest) == [rs[0]] + (rs[1..] + Parse(rest));
    }
  }

  lemma {:induction false} ParsedAreLoggable(data: Bytes)
    ensures AllLoggable(Parse(data))
    decreases |data|
  {
    if |data| >= 4 {
      var len := FromLittleEndian(data[..4]);
      if len <= MAX_LOGGED_MSG && |data| >= 4 + len + MAYO_SIG_BYTES {
        ParsedAreLoggable(data[4 + len + MAYO_SIG_BYTES..]);
      }
    }
  }

  /** The log recovers everything that was written iff no message exceeds 4,096 bytes;
      the writer does not check, and the reader stops at the first longer one. */
  lemma RecoversIffLoggable(rs: seq<Record>)
    ensures Parse(EncodeAll(rs)) == rs <==> AllLoggable(rs)
  {
    if AllLoggable(rs) {
      ParseAll(rs, []);
      assert EncodeAll(rs) + [] == EncodeAll(rs);
    }
    ParsedAreLoggable(EncodeAll(rs));
  }

  /** A record that is too long hides every record after it. */
  lemma LongMessageHidesRest(long: Record, rest: seq<Record>)
    requires MAX_LOGGED_MSG < |long.msg| < TWO_32
    ensures Parse(EncodeAll([long] + rest)) == []
  {
    hide LittleEndian, FromLittleEndian, Pow256, EncodeAll;
    Pow256Of4();
    LittleEndianRoundTrip(|long.msg|, 4);
    EncodeFirst(long, rest);
    var data := EncodeAll([long] + rest);
    assert data[..4] == LittleEndian(|long.msg| % TWO_32, 4);
    ParseStops(data);
  }

  lemma EncodeFirst(r: Record, rest: seq<Record>)
    ensures EncodeAll([r] + rest) == EncodeRecord(r) + EncodeAll(rest)
  {
    assert ([r] + rest)[1..] == rest;
  }

  /** For instance a message of 4,097 bytes, after which a recorded signature is lost. */
  lemma RecordIsLost(r: Record) returns (long: Record)
    ensures |long.msg| == 4097 && Parse(EncodeAll([long, r])) == []
  {
    long := Record(seq(4097, i => 0), r.sig);
    LongMessageHidesRest(long, [r]);
    assert [long] + [r] == [long, r];
  }

  lemma {:induction false} EncodeAppend(rs: seq<Record>, r: Record)
    ensures EncodeAll(rs + [r]) == EncodeAll(rs) + EncodeRecord(r)
    decreases |rs|
  {
    if rs == [] {
      assert rs + [r] == [r] && EncodeAll([r]) == EncodeRecord(r) + EncodeAll([]);
    } else {
      assert (rs + [r])[1..] == rs[1..] + [r];
      EncodeAppend(rs[1..], r);
    }
  }

  // ----- the cache -----

  /** `sigs` and `order` of `SigCache`. */
  datatype Cache = Cache(sigs: map<Bytes, Sig>, order: seq<Bytes>)

  const EMPTY: Cache := Cache(map[], [])

  ghost predicate Valid(cap: nat, c: Cache) {
    && |c.order| <= cap
    && (forall m :: m in c.order <==> m in c.sigs)
    && (forall i, j :: 0 <= i < j < |c.order| ==> c.order[i] != c.order[j])
  }

  /** `remember`: the newest entry goes last, and past `cap` the oldest goes. */
  function Remember(cap: nat, c: Cache, r: Record): Cache {
    var order := if r.msg in c.sigs then c.order else c.order + [r.msg];
    Trim(cap, Cache(c.sigs[r.msg := r.sig], order))
  }

  function Trim(cap: nat, c: Cache): Cache
    decreases |c.order|
  {
    if |c.order| <= cap then c else Trim(cap, Cache(c.sigs - {c.order[0]}, c.order[1..]))
  }

  function Replay(cap: nat, c: Cache, rs: seq<Record>): Cache {
    if rs == [] then c else Remember(cap, Replay(cap, c, rs[..|rs| - 1]), rs[|rs| - 1])
  }

  /** What `open` makes of a file. */
  function Recovered(cap: nat, data: Bytes): Cache {
    Replay(cap, EMPTY, Parse(data))
  }

  /** What `rewrite` writes: the retained entries, oldest first. */
  function Snapshot(c: Cache): seq<Record>
    requires forall m <- c.order :: m in c.sigs
  {
    seq(|c.order|, i requires 0 <= i < |c.order| => Record(c.order[i], c.sigs[c.order[i]]))
  }

  /** From a valid cache at most one entry is trimmed. */
  lemma RememberUnfold(cap: nat, c: Cache, r: Record)
    requires Valid(cap, c)
    ensures var c' := Remember(cap, c, r);
            && Valid(cap, c')
            && (if r.msg in c.sigs then c' == Cache(c.sigs[r.msg := r.sig], c.order)
                else if |c.order| < cap then c' == Cache(c.sigs[r.msg := r.sig], c.order + [r.msg])
                else if cap == 0 then c' == Cache(map[], [])
                else c' == Cache(c.sigs[r.msg := r.sig] - {c.order[0]}, c.order[1..] + [r.msg]))
  {
    if r.msg !in c.sigs {
      var full := Cache(c.sigs[r.msg := r.sig], c.order + [r.msg]);
      assert forall m :: m in full.order <==> m in c.order || m == r.msg;
      if |c.order| == cap {
        var trimmed := Cache(full.sigs - {full.order[0]}, full.order[1..]);
        assert Trim(cap, full) == trimmed;
        assert cap > 0 ==> trimmed.order == c.order[1..] + [r.msg];
        TrimmedValid(full);
      }
    }
  }

  lemma TrimmedValid(c: Cache)
    requires Valid(|c.order|, c) && c.order != []
    ensures Valid(|c.order| - 1, Cache(c.sigs - {c.order[0]}, c.order[1..]))
  {
    var rest := c.order[1..];
    assert c.order == [c.order[0]] + rest;
    forall m
      ensures m in rest <==> m in c.sigs && m != c.order[0]
    {
      if m in rest {
        var i :| 0 <= i < |rest| && rest[i] == m;
        assert c.order[i + 1] == m;
      }
    }
  }

  lemma {:induction false} ReplayValid(cap: nat, rs: seq<Record>)
    ensures Valid(cap, Replay(cap, EMPTY, rs))
    decreases |rs|
  {
    if rs != [] {
      hide Remember;
      ReplayValid(cap, rs[..|rs| - 1]);
      RememberUnfold(cap, Replay(cap, EMPTY, rs[..|rs| - 1]), rs[|rs| - 1]);
    }
  }

  lemma ReplayAppend(cap: nat, rs: seq<Record>, r: Record)
    ensures Replay(cap, EMPTY, rs + [r]) == Remember(cap, Replay(cap, EMPTY, rs), r)
  {
    assert (rs + [r])[..|rs|] == rs;
  }

  lemma ReplayNothing(cap: nat)
    ensures Replay(cap, EMPTY, []) == EMPTY
  {
  }

  lemma Regroup(done: seq<Record>, r: Record, rest: seq<Record>)
    ensures done + ([r] + rest) == (done + [r]) + rest
  {
  }

  /** The oldest `n` entries of a cache. */
  ghost function Oldest(c: Cache, n: nat): Cache
    requires n <= |c.order|
  {
    Cache(map m | m in c.sigs && m in c.order[..n] :: c.sigs[m], c.order[..n])
  }

  lemma OldestValid(cap: nat, c: Cache, n: nat)
    requires Valid(cap, c) && n <= |c.order|
    ensures Valid(cap, Oldest(c, n)) && (forall m <- c.order :: m in c.sigs)
  {
  }

  lemma OldestGrows(cap: nat, c: Cache, n: nat)
    requires Valid(cap, c) && 0 < n <= |c.order| && c.order[n - 1] in c.sigs
    ensures var m := c.order[n - 1];
            && m !in Oldest(c, n - 1).sigs
            && Oldest(c, n) == Cache(Oldest(c, n - 1).sigs[m := c.sigs[m]], Oldest(c, n - 1).order + [m])
  {
    var m := c.order[n - 1];
    assert c.order[..n] == c.order[..n - 1] + [m];
    assert m !in c.order[..n - 1];
    assert Oldest(c, n - 1).sigs[m := c.sigs[m]] == Oldest(c, n).sigs;
  }

  lemma OldestStep(cap: nat, c: Cache, n: nat)
    requires Valid(cap, c) && 0 < n <= |c.order|
    ensures Valid(cap, Oldest(c, n - 1)) && c.order[n - 1] in c.sigs
    ensures Remember(cap, Oldest(c, n - 1), Record(c.order[n - 1], c.sigs[c.order[n - 1]])) == Oldest(c, n)
  {
    hide Remember;
    OldestValid(cap, c, n - 1);
    OldestGrows(cap, c, n);
    RememberUnfold(cap, Oldest(c, n - 1), Record(c.order[n - 1], c.sigs[c.order[n - 1]]));
  }

  lemma SnapshotGrows(cap: nat, c: Cache, n: nat)
    requires Valid(cap, c) && 0 < n <= |c.order|
    ensures |Snapshot(c)| == |c.order| && c.order[n - 1] in c.sigs
    ensures Snapshot(c)[..n] == Snapshot(c)[..n - 1] + [Record(c.order[n - 1], c.sigs[c.order[n - 1]])]
  {
  }

  lemma OldestNone(cap: nat, c: Cache)
    requires Valid(cap, c)
    ensures Replay(cap, EMPTY, Snapshot(c)[..0]) == Oldest(c, 0)
  {
    assert Oldest(c, 0).sigs == map[];
  }

  lemma {:induction false} SnapshotPrefix(cap: nat, c: Cache, n: nat)
    requires Valid(cap, c) && n <= |c.order|
    ensures |Snapshot(c)| == |c.order| && Replay(cap, EMPTY, Snapshot(c)[..n]) == Oldest(c, n)
    decreases n
  {
    assert |Snapshot(c)| == |c.order|;
    if n == 0 {
      OldestNone(cap, c);
    } else {
      SnapshotPrefix(cap, c, n - 1);
      hide *;
      SnapshotGrows(cap, c, n);
      OldestStep(cap, c, n);
      ReplayAppend(cap, Snapshot(c)[..n - 1], Record(c.order[n - 1], c.sigs[c.order[n - 1]]));
    }
  }

  /** Compaction changes nothing that is recovered: replaying a snapshot rebuilds the
      cache it was taken from. */
  lemma SnapshotReplays(cap: nat, c: Cache)
    requires Valid(cap, c)
    ensures Replay(cap, EMPTY, Snapshot(c)) == c
  {
    hide Remember, Replay;
    var s := Snapshot(c);
    SnapshotPrefix(cap, c, |s|);
    assert s[..|s|] == s && c.order[..|s|] == c.order;
    assert Oldest(c, |s|).sigs == c.sigs;
  }

  // ----- the memo with its log -----

  /** The log file, how many records were appended since the last rewrite, and whether a
      write failed. */
  datatype Log = Log(file: Bytes, records: nat, failed: bool)

  datatype Memo = Memo(cap: nat, cache: Cache, log: Option<Log>)

  /** How far the disk lets an insert get: the append stops after `written` bytes, or it
      succeeds and a compaction, if one is due, succeeds or fails before its rename. */
  datatype Io = AppendFails(written: nat) | AppendsOnly | AppendsAndCompacts

  function Prefix(b: Bytes, n: nat): Bytes {
    if n <= |b| then b[..n] else b
  }

  function Rewritten(c: Cache): Log
    requires forall m <- c.order :: m in c.sigs
  {
    Log(EncodeAll(Snapshot(c)), |c.order|, false)
  }

  /** `insert`: the next memo, and whether it returned `Ok`. */
  function Insert(m: Memo, r: Record, io: Io): (Memo, bool)
    requires Valid(m.cap, m.cache)
  {
    if m.log.None? then (m.(cache := Remember(m.cap, m.cache, r)), true)
    else
      var log := m.log.value;
      if log.failed then (m, false)
      else if io.AppendFails? then
        (m.(log := Some(Log(log.file + Prefix(EncodeRecord(r), io.written), log.records, true))), false)
      else
        RememberUnfold(m.cap, m.cache, r);
        var cache := Remember(m.cap, m.cache, r);
        var appended := Log(log.file + EncodeRecord(r), log.records + 1, false);
        if appended.records <= 2 * m.cap then (Memo(m.cap, cache, Some(appended)), true)
        else if io.AppendsOnly? then (Memo(m.cap, cache, Some(appended)), false)
        else (Memo(m.cap, cache, Some(Rewritten(cache))), true)
  }

  /** The memo half of `sign`: a cached signature, or a drawn one that is recorded
      before it is released. `drawn` is `None` when signing fails. */
  function Sign(m: Memo, msg: Bytes, drawn: Option<Sig>, io: Io): (Memo, Option<Sig>)
    requires Valid(m.cap, m.cache)
  {
    if msg in m.cache.sigs then (m, Some(m.cache.sigs[msg]))
    else if drawn.None? then (m, None)
    else
      var (m', ok) := Insert(m, Record(msg, drawn.value), io);
      (m', if ok then Some(drawn.value) else None)
  }

  /** A crash, then `open`: only the file survives, and it is rewritten. */
  function Reopened(m: Memo): Memo
    requires m.log.Some?
  {
    var cache := Recovered(m.cap, m.log.value.file);
    ReplayValid(m.cap, Parse(m.log.value.file));
    Memo(m.cap, cache, Some(Rewritten(cache)))
  }

  // ----- the invariant -----

  /** The file is whole records, as many as are counted, that replay to the cache; after a failed append it may
      end in part or all of one record whose message is not cached. */
  ghost predicate FileOk(m: Memo, rs: seq<Record>, torn: Record, written: nat) {
    && m.log.Some? && Valid(m.cap, m.cache) && AllLoggable(rs) && Loggable(torn)
    && Replay(m.cap, EMPTY, rs) == m.cache && |rs| == m.log.value.records
    && m.log.value.file == EncodeAll(rs) + (if m.log.value.failed then Prefix(EncodeRecord(torn), written) else [])
    && (m.log.value.failed ==> torn.msg !in m.cache.sigs)
  }

  ghost predicate Inv(m: Memo) {
    exists rs, torn, written :: FileOk(m, rs, torn, written)
  }

  lemma RewrittenOk(cap: nat, c: Cache)
    requires Valid(cap, c) && (forall m <- c.order :: |m| <= MAX_LOGGED_MSG)
    ensures Inv(Memo(cap, c, Some(Rewritten(c))))
  {
    SnapshotReplays(cap, c);
    var m := Memo(cap, c, Some(Rewritten(c)));
    var r := Record([], seq(186, i => 0));
    assert EncodeAll(Snapshot(c)) + [] == EncodeAll(Snapshot(c));
    assert FileOk(m, Snapshot(c), r, 0);
  }

  /** Whatever bytes the file holds, `open` starts in step with it. */
  lemma OpenEstablishesInv(cap: nat, data: Bytes)
    ensures Inv(Reopened(Memo(cap, EMPTY, Some(Log(data, 0, false)))))
  {
    hide Inv, Rewritten, Parse, Replay;
    ParsedAreLoggable(data);
    ReplayedAreLoggable(cap, Parse(data));
    ReplayValid(cap, Parse(data));
    RewrittenOk(cap, Recovered(cap, data));
  }

  /** Everything in a replayed cache came from a record. */
  lemma {:induction false} ReplayedAreLoggable(cap: nat, rs: seq<Record>)
    requires AllLoggable(rs)
    ensures forall m <- Replay(cap, EMPTY, rs).order :: |m| <= MAX_LOGGED_MSG
    decreases |rs|
  {
    if rs != [] {
      hide Remember;
      var n := |rs| - 1;
      ReplayedAreLoggable(cap, rs[..n]);
      ReplayValid(cap, rs[..n]);
      var before := Replay(cap, EMPTY, rs[..n]);
      RememberUnfold(cap, before, rs[n]);
      var after := Remember(cap, before, rs[n]);
      assert rs[n] in rs && Loggable(rs[n]);
      assert forall m <- after.order :: m in before.order || m == rs[n].msg;
    }
  }

  lemma InsertKeepsInv(m: Memo, r: Record, io: Io)
    requires Inv(m) && Valid(m.cap, m.cache) && Loggable(r) && r.msg !in m.cache.sigs
    ensures Inv(Insert(m, r, io).0)
  {
    hide Remember, EncodeRecord, EncodeAll, Replay, Rewritten;
    var rs, torn, written :| FileOk(m, rs, torn, written);
    var m' := Insert(m, r, io).0;
    var log := m.log.value;
    if !log.failed {
      if io.AppendFails? {
        assert log.file == EncodeAll(rs);
        assert FileOk(m', rs, r, io.written);
      } else {
        RememberUnfold(m.cap, m.cache, r);
        var cache := Remember(m.cap, m.cache, r);
        EncodeAppend(rs, r);
        ReplayAppend(m.cap, rs, r);
        if m'.log.value == Log(log.file + EncodeRecord(r), log.records + 1, false) {
          assert FileOk(m', rs + [r], r, 0);
        } else {
          ReplayedAreLoggable(m.cap, rs + [r]);
          RewrittenOk(m.cap, cache);
        }
      }
    } else {
      assert FileOk(m', rs, torn, written);
    }
  }

  /** What a crash leaves to be recovered: exactly the cache, or the cache and the one
      record that was in flight. */
  ghost predicate RecoversTo(m: Memo, c: Cache) {
    || c == m.cache
    || (m.log.Some? && m.log.value.failed &&
        exists r: Record :: Loggable(r) && r.msg !in m.cache.sigs && c == Remember(m.cap, m.cache, r))
  }

  lemma ReopenRecovers(m: Memo)
    requires Inv(m)
    ensures m.log.Some? && RecoversTo(m, Reopened(m).cache) && Inv(Reopened(m))
  {
    hide Remember, EncodeRecord, Rewritten;
    var rs, torn, written :| FileOk(m, rs, torn, written);
    var tail := if m.log.value.failed then Prefix(EncodeRecord(torn), written) else [];
    ParseAll(rs, tail);
    if tail == EncodeRecord(torn) && m.log.value.failed {
      ParseRecord(torn, []);
      assert EncodeRecord(torn) + [] == tail;
      assert Parse(tail) == [torn];
      ReplayAppend(m.cap, rs, torn);
      ReplayedAreLoggable(m.cap, rs + [torn]);
    } else {
      if m.log.value.failed {
        ParseTorn(torn, |tail|);
      }
      assert Parse(tail) == [] && rs + [] == rs;
      ReplayedAreLoggable(m.cap, rs);
    }
    ReplayValid(m.cap, Parse(m.log.value.file));
    RewrittenOk(m.cap, Reopened(m).cache);
  }

  // ----- runs -----

  datatype Event = Signing(msg: Bytes, drawn: Option<Sig>, io: Io) | Crash

  ghost predicate CanStep(m: Memo, e: Event) {
    Valid(m.cap, m.cache) && m.log.Some? && (e.Signing? ==> |e.msg| <= MAX_LOGGED_MSG)
  }

  ghost function Next(m: Memo, e: Event): Memo
    requires CanStep(m, e)
  {
    match e
    case Signing(msg, drawn, io) => Sign(m, msg, drawn, io).0
    case Crash => Reopened(m)
  }

  lemma InvValid(m: Memo)
    requires Inv(m)
    ensures Valid(m.cap, m.cache) && m.log.Some?
  {
  }

  lemma NextKeepsInv(m: Memo, e: Event)
    requires Inv(m) && (e.Signing? ==> |e.msg| <= MAX_LOGGED_MSG)
    ensures CanStep(m, e) && Inv(Next(m, e)) && Next(m, e).cap == m.cap
  {
    hide Inv, Remember, Insert;
    InvValid(m);
    match e
    case Signing(msg, drawn, io) =>
      if msg !in m.cache.sigs && drawn.Some? {
        InsertKeepsInv(m, Record(msg, drawn.value), io);
        InsertFrame(m, Record(msg, drawn.value), io);
      }
    case Crash => ReopenRecovers(m);
  }

  lemma InsertFrame(m: Memo, r: Record, io: Io)
    requires Valid(m.cap, m.cache)
    ensures var m' := Insert(m, r, io).0;
            m'.cap == m.cap && (m'.cache == m.cache || m'.cache == Remember(m.cap, m.cache, r))
  {
    hide Remember;
  }

  ghost predicate InLimits(events: seq<Event>) {
    forall e <- events :: e.Signing? ==> |e.msg| <= MAX_LOGGED_MSG
  }

  /** The memo after a run. */
  ghost function Run(m: Memo, events: seq<Event>): (r: Memo)
    requires Inv(m) && InLimits(events)
    ensures Inv(r) && r.cap == m.cap
    decreases |events|
  {
    if events == [] then m
    else
      var n := |events| - 1;
      assert events[n] in events;
      var before := Run(m, events[..n]);
      NextKeepsInv(before, events[n]);
      Next(before, events[n])
  }

  /** Crash safety: after any run of signings and crashes, reopening rebuilds exactly the
      cache in memory, or that cache and the one record in flight; when no append
      failed, exactly the cache. */
  lemma CrashSafe(m: Memo, events: seq<Event>)
    requires Inv(m) && InLimits(events)
    ensures var r := Run(m, events);
            r.log.Some? && RecoversTo(r, Reopened(r).cache) &&
            (!r.log.value.failed ==> Reopened(r).cache == r.cache)
  {
    ReopenRecovers(Run(m, events));
  }

  /** No compaction fails in the run. */
  ghost predicate Compacts(events: seq<Event>) {
    forall e <- events :: e.Signing? ==> !e.io.AppendsOnly?
  }

  lemma NextBoundsLog(m: Memo, e: Event)
    requires CanStep(m, e) && m.log.value.records <= 2 * m.cap && (e.Signing? ==> !e.io.AppendsOnly?)
    ensures Next(m, e).log.Some? && Next(m, e).log.value.records <= 2 * m.cap
  {
    hide EncodeAll, EncodeRecord, Remember, Replay, Parse;
    if e.Crash? {
      ReplayValid(m.cap, Parse(m.log.value.file));
    } else if e.drawn.Some? {
      RememberUnfold(m.cap, m.cache, Record(e.msg, e.drawn.value));
    }
  }

  /** Compaction bounds the log: while no rewrite fails, the file never holds more than
      twice `cap` whole records. */
  lemma {:induction false} LogStaysBounded(m: Memo, events: seq<Event>)
    requires Inv(m) && InLimits(events) && Compacts(events) && m.log.value.records <= 2 * m.cap
    ensures var r := Run(m, events);
            r.log.Some? && r.log.value.records <= 2 * m.cap
    decreases |events|
  {
    InvValid(m);
    if events != [] {
      hide Inv, Next, CanStep;
      var n := |events| - 1;
      assert events[n] in events;
      LogStaysBounded(m, events[..n]);
      NextKeepsInv(Run(m, events[..n]), events[n]);
      NextBoundsLog(Run(m, events[..n]), events[n]);
    }
  }

  /** What `sign` releases, exactly: a recorded message's signature; else what was drawn, iff
      one was, and with a log only if no write failed before, the append got through, and so
      did the compaction, if it made one record more than twice the cap. Nothing is
      released that is not remembered. */
  lemma SignReleasesIff(m: Memo, msg: Bytes, drawn: Option<Sig>, io: Io)
    requires Valid(m.cap, m.cache)
    ensures var (m', sig) := Sign(m, msg, drawn, io);
            if msg in m.cache.sigs then m' == m && sig == Some(m.cache.sigs[msg])
            else
              && (sig.Some? <==>
                  && drawn.Some?
                  && (m.log.Some? ==>
                        && !m.log.value.failed && !io.AppendFails?
                        && (m.log.value.records + 1 > 2 * m.cap ==> io.AppendsAndCompacts?)))
              && (sig.Some? ==> sig == drawn && (m.cap > 0 ==> msg in m'.cache.sigs && m'.cache.sigs[msg] == sig.value))
              && (m.log.Some? && (m.log.value.failed || (drawn.Some? && io.AppendFails?)) ==>
                    m'.log.Some? && m'.log.value.failed && m'.cache == m.cache)
  {
    hide Remember, EncodeRecord, Rewritten;
    if drawn.Some? {
      RememberUnfold(m.cap, m.cache, Record(msg, drawn.value));
    }
  }

  /** Nothing is released unrecorded: a signature `sign` newly draws and returns is in
      the file, and so is every cached one while no append has failed. A crash right
      afterwards does not lose it. */
  lemma ReleasedIsRecorded(m: Memo, msg: Bytes, drawn: Option<Sig>, io: Io)
    requires Inv(m) && |msg| <= MAX_LOGGED_MSG && m.cap > 0 && Valid(m.cap, m.cache)
    requires Sign(m, msg, drawn, io).1.Some?
    ensures var (m', sig) := Sign(m, msg, drawn, io);
            && m'.log.Some?
            && (msg !in m.cache.sigs || !m.log.value.failed ==>
                  msg in Reopened(m').cache.sigs && Reopened(m').cache.sigs[msg] == sig.value)
  {
    hide Remember, EncodeRecord, EncodeAll, Inv, Reopened;
    var m' := Sign(m, msg, drawn, io).0;
    NextKeepsInv(m, Signing(msg, drawn, io));
    ReopenRecovers(m');
    InvValid(m');
    if msg !in m.cache.sigs {
      RememberUnfold(m.cap, m.cache, Record(msg, drawn.value));
    }
  }

  // ----- re-signing is stable -----

  /** How many messages were recorded after `msg`. */
  ghost function Age(c: Cache, msg: Bytes): nat {
    if msg in c.order then |c.order| - 1 - IndexOf(c.order, msg) else 0
  }

  function IndexOf(order: seq<Bytes>, msg: Bytes): (i: nat)
    requires msg in order
    ensures i < |order| && order[i] == msg
  {
    if order[0] == msg then 0 else 1 + IndexOf(order[1..], msg)
  }

  /** One new record ages every entry by one, and evicts an entry iff that makes it `cap`
      old. */
  lemma RememberAges(cap: nat, c: Cache, r: Record, msg: Bytes)
    requires Valid(cap, c) && msg in c.sigs && r.msg !in c.sigs
    ensures var c' := Remember(cap, c, r);
            && (msg in c'.sigs <==> Age(c, msg) + 1 < cap)
            && (msg in c'.sigs ==> c'.sigs[msg] == c.sigs[msg] && Age(c', msg) == Age(c, msg) + 1)
  {
    hide Remember;
    RememberUnfold(cap, c, r);
    var c' := Remember(cap, c, r);
    var i := IndexOf(c.order, msg);
    assert c.order[i] == msg;
    if |c.order| < cap {
      assert c'.order[i] == msg;
    } else if i > 0 {
      assert c'.order[i - 1] == msg;
    }
  }

  /** 1 when the step records a message that was not cached. */
  ghost function Recorded(m: Memo, m': Memo): nat {
    if m'.cache == m.cache then 0 else 1
  }

  /** How many new messages a run records. */
  ghost function NewlyRecorded(m: Memo, events: seq<Event>): nat
    requires Inv(m) && InLimits(events)
    decreases |events|
  {
    if events == [] then 0
    else
      var n := |events| - 1;
      NewlyRecorded(m, events[..n]) + Recorded(Run(m, events[..n]), Run(m, events))
  }

  lemma NextAges(m: Memo, e: Event, msg: Bytes)
    requires Inv(m) && CanStep(m, e) && msg in m.cache.sigs
    ensures var m' := Next(m, e);
            Age(m.cache, msg) + Recorded(m, m') < m.cap ==>
              && msg in m'.cache.sigs && m'.cache.sigs[msg] == m.cache.sigs[msg]
              && Age(m'.cache, msg) == Age(m.cache, msg) + Recorded(m, m')
  {
    hide Inv, Remember, Insert, Reopened, Age;
    var m' := Next(m, e);
    if m'.cache != m.cache && Age(m.cache, msg) + 1 < m.cap {
      match e
      case Signing(x, drawn, io) =>
        InsertFrame(m, Record(x, drawn.value), io);
        RememberAges(m.cap, m.cache, Record(x, drawn.value), msg);
      case Crash =>
        ReopenRecovers(m);
        var r :| Loggable(r) && r.msg !in m.cache.sigs && m'.cache == Remember(m.cap, m.cache, r);
        RememberAges(m.cap, m.cache, r, msg);
    }
  }

  /** Re-signing is stable: once a message is recorded, and until `cap` newer messages
      are recorded after it, it keeps its signature across any signings, write
      failures, compactions and crashes. */
  lemma {:induction false} SignatureIsStable(m: Memo, events: seq<Event>, msg: Bytes)
    requires Inv(m) && InLimits(events) && msg in m.cache.sigs
    requires Age(m.cache, msg) + NewlyRecorded(m, events) < m.cap
    ensures var r := Run(m, events);
            && msg in r.cache.sigs && r.cache.sigs[msg] == m.cache.sigs[msg]
            && Age(r.cache, msg) == Age(m.cache, msg) + NewlyRecorded(m, events)
    decreases |events|
  {
    if events != [] {
      hide Inv, Next, Age, Recorded;
      var n := |events| - 1;
      assert events[n] in events;
      SignatureIsStable(m, events[..n], msg);
      var before := Run(m, events[..n]);
      NextKeepsInv(before, events[n]);
      NextAges(before, events[n], msg);
    }
  }

  /** So signing it again returns the same bytes, whatever the signer would have drawn. */
  lemma ResignReturnsSameBytes(m: Memo, events: seq<Event>, msg: Bytes, drawn: Option<Sig>, io: Io)
    requires Inv(m) && InLimits(events) && msg in m.cache.sigs
    requires Age(m.cache, msg) + NewlyRecorded(m, events) < m.cap
    ensures var r := Run(m, events);
            Valid(r.cap, r.cache) && Sign(r, msg, drawn, io) == (r, Some(m.cache.sigs[msg]))
  {
    hide Inv, Age, NewlyRecorded, Run, Insert;
    SignatureIsStable(m, events, msg);
    InvValid(Run(m, events));
  }

  // ----- the cache as the source updates it -----

  /** `rewrite`'s buffer: every retained entry, oldest first. */
  method EncodeEntries(order: seq<Bytes>, sigs: map<Bytes, Sig>) returns (buf: Bytes)
    requires forall m <- order :: m in sigs
    ensures buf == EncodeAll(Snapshot(Cache(sigs, order)))
  {
    hide EncodeRecord;
    ghost var entries := Snapshot(Cache(sigs, order));
    buf := [];
    for i := 0 to |order|
      invariant buf == EncodeAll(entries[..i])
    {
      assert order[i] in order;
      EncodeAppend(entries[..i], entries[i]);
      assert entries[..i + 1] == entries[..i] + [entries[i]];
      buf := buf + EncodeRecord(Record(order[i], sigs[order[i]]));
    }
    assert entries[..|order|] == entries;
  }

  /** What reading the log file gives. */
  datatype FileRead = Missing | Unreadable | Contents(data: Bytes)

  function BytesOf(file: FileRead): Bytes {
    if file.Contents? then file.data else []
  }

  class SigCache {
    const cap: nat
    var sigs: map<Bytes, Sig>
    var order: seq<Bytes>
    var log: Option<Log>

    ghost function View(): Memo
      reads this
    {
      Memo(cap, Cache(sigs, order), log)
    }

    ghost predicate Coherent()
      reads this
    {
      Valid(cap, Cache(sigs, order))
    }

    constructor (cap: nat)
      ensures Coherent() && View() == Memo(cap, EMPTY, None)
    {
      this.cap := cap;
      sigs, order, log := map[], [], None;
    }

    /** `open`: a missing file is an empty one; a file that cannot be read or rewritten
        gives no cache. */
    static method Open(cap: nat, file: FileRead, rewritten: bool) returns (r: Result<SigCache, ()>)
      ensures r.Ok? <==> !file.Unreadable? && rewritten
      ensures r.Ok? ==> fresh(r.value) && r.value.Coherent()
      ensures r.Ok? ==> r.value.View() == Reopened(Memo(cap, EMPTY, Some(Log(BytesOf(file), 0, false))))
    {
      if file.Unreadable? || !rewritten {
        return Err(());
      }
      var cache := new SigCache.Load(cap, BytesOf(file));
      return Ok(cache);
    }

    constructor Load(cap: nat, data: Bytes)
      ensures Coherent() && View() == Reopened(Memo(cap, EMPTY, Some(Log(data, 0, false))))
    {
      this.cap := cap;
      sigs, order, log := map[], [], None;
      new;
      ReadRecords(data);
      ReplayValid(cap, Parse(data));
      var buf := EncodeEntries(order, sigs);
      log := Some(Log(buf, |order|, false));
    }

    /** `open`'s loop: whole records are remembered until one is torn or too long. */
    method ReadRecords(data: Bytes)
      requires sigs == map[] && order == []
      modifies this`sigs, this`order
      ensures Cache(sigs, order) == Recovered(cap, data)
    {
      hide Remember, Parse, Replay, FromLittleEndian;
      ghost var done: seq<Record> := [];
      assert Replay(cap, EMPTY, []) == EMPTY by {
        ReplayNothing(cap);
      }
      var rest := data;
      while |rest| >= 4
        invariant done + Parse(rest) == Parse(data)
        invariant Cache(sigs, order) == Replay(cap, EMPTY, done)
        decreases |rest|
      {
        var len := FromLittleEndian(rest[..4]);
        if len > MAX_LOGGED_MSG || |rest| < 4 + len + MAYO_SIG_BYTES {
          break;
        }
        var end := 4 + len + MAYO_SIG_BYTES;
        var r := Record(rest[4..4 + len], rest[4 + len..end]);
        ParseGoesOn(rest, len, end);
        ReplayValid(cap, done);
        RememberEntry(r.msg, r.sig);
        ReplayAppend(cap, done, r);
        Regroup(done, r, Parse(rest[end..]));
        done := done + [r];
        rest := rest[end..];
      }
      ParseStops(rest);
      assert done + [] == done;
    }

    method Get(msg: Bytes) returns (sig: Option<Sig>)
      ensures sig == if msg in sigs then Some(sigs[msg]) else None
    {
      sig := if msg in sigs then Some(sigs[msg]) else None;
    }

    method RememberEntry(msg: Bytes, sig: Sig)
      requires Coherent()
      modifies this`sigs, this`order
      ensures Coherent() && Cache(sigs, order) == Remember(cap, old(View()).cache, Record(msg, sig))
    {
      RememberUnfold(cap, Cache(sigs, order), Record(msg, sig));
      ghost var after := Remember(cap, Cache(sigs, order), Record(msg, sig));
      if msg !in sigs {
        order := order + [msg];
      }
      sigs := sigs[msg := sig];
      while |order| > cap
        invariant Trim(cap, Cache(sigs, order)) == after
        decreases |order|
      {
        sigs := sigs - {order[0]};
        order := order[1..];
      }
    }

    /** `insert`: append, remember, then compact when the log outgrew twice the cap. */
    method InsertEntry(msg: Bytes, sig: Sig, io: Io) returns (ok: bool)
      requires Coherent()
      modifies this
      ensures Coherent() && (View(), ok) == Insert(old(View()), Record(msg, sig), io)
    {
      hide Remember, EncodeRecord, EncodeAll, Snapshot;
      RememberUnfold(cap, Cache(sigs, order), Record(msg, sig));
      if log.Some? {
        var l := log.value;
        if l.failed {
          return false;
        }
        var record := EncodeRecord(Record(msg, sig));
        if io.AppendFails? {
          log := Some(Log(l.file + Prefix(record, io.written), l.records, true));
          return false;
        }
        log := Some(Log(l.file + record, l.records + 1, false));
      }
      RememberEntry(msg, sig);
      if log.Some? && log.value.records > 2 * cap {
        if io.AppendsOnly? {
          return false;
        }
        var buf := EncodeEntries(order, sigs);
        log := Some(Log(buf, |order|, false));
      }
      return true;
    }

    /** `sign`'s use of the cache. */
    method SignOnce(msg: Bytes, drawn: Option<Sig>, io: Io) returns (released: Option<Sig>)
      requires Coherent()
      modifies this
      ensures Coherent() && (View(), released) == Sign(old(View()), msg, drawn, io)
    {
      hide Insert;
      var cached := Get(msg);
      if cached.Some? {
        return cached;
      }
      if drawn.None? {
        return None;
      }
      var ok := InsertEntry(msg, drawn.value, io);
      return if ok then drawn else None;
    }
  }
}
