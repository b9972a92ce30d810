/** The light client's storage layer: JSON state wrapped in two nested layers of
    Protocol Buffers length-delimited fields, under the 08-wasm host keys. */
module WasmStore {
  import opened Common
  import opened Varint

  datatype Height = Height(revisionNumber: nat, revisionHeight: nat)

  const TWO_32: nat := 0x1_0000_0000

  // ----- fields -----

  function LenField(field: nat, data: Bytes): Bytes {
    Encode(field * 8 + 2) + (Encode(|data|) + data)
  }

  /** Zero values are omitted. */
  function VarintField(field: nat, v: nat): Bytes {
    if v == 0 then [] else Encode(field * 8) + Encode(v)
  }

  /** `put_len`. */
  method PutLen(buf: Bytes, field: nat, data: Bytes) returns (out: Bytes)
    requires field < TWO_32 && |data| <= U64_MAX
    ensures out == buf + LenField(field, data)
  {
    out := PutVarint(buf, field * 8 + 2);
    out := PutVarint(out, |data|);
    out := out + data;
  }

  /** `put_varint_field`. */
  method PutVarintField(buf: Bytes, field: nat, v: nat) returns (out: Bytes)
    requires field < TWO_32 && v <= U64_MAX
    ensures out == buf + VarintField(field, v)
  {
    out := buf;
    if v != 0 {
      ghost var tag, value := Encode(field * 8), Encode(v);
      assert (buf + tag) + value == buf + (tag + value);
      out := PutVarint(out, field * 8);
      out := PutVarint(out, v);
    }
  }

  /** The outcome of reading one field: its bytes, or where the next field starts. */
  datatype FieldStep = Malformed | Found(data: Bytes) | Next(consumed: nat)

  /** `(tag >> 3) as u32`. */
  function FieldNumber(tag: nat): nat {
    tag / 8 % TWO_32
  }

  /** `len as usize` on the contract's 32-bit target. */
  function Usize(len: nat): nat {
    len % TWO_32
  }

  /** One turn of the field loop. Wire types 0, 1, 2 and 5 are known. */
  function ReadField(bz: Bytes, want: nat): (s: FieldStep)
    ensures s.Next? ==> 0 < s.consumed <= |bz|
  {
    match Decode(bz)
    case None => Malformed
    case Some(tag) =>
      var wire := tag.value % 8;
      var at := tag.consumed;
      if wire == 0 then
        match Decode(bz[at..])
        case None => Malformed
        case Some(v) => Next(at + v.consumed)
      else if wire == 1 then if at + 8 > |bz| then Malformed else Next(at + 8)
      else if wire == 5 then if at + 4 > |bz| then Malformed else Next(at + 4)
      else if wire == 2 then
        match Decode(bz[at..])
        case None => Malformed
        case Some(len) =>
          var from := at + len.consumed;
          var to := from + Usize(len.value);
          if to > |bz| then Malformed
          else if FieldNumber(tag.value) == want then Found(bz[from..to])
          else Next(to)
      else Malformed
  }

  /** The first length-delimited field numbered `want`. */
  function GetField(bz: Bytes, want: nat): Option<Bytes>
    decreases |bz|
  {
    if bz == [] then None
    else
      match ReadField(bz, want)
      case Malformed => None
      case Found(data) => Some(data)
      case Next(n) => GetField(bz[n..], want)
  }

  /** The body of the field loop, at index `start`. */
  method ReadFieldAt(bz: Bytes, start: nat, want: nat) returns (s: FieldStep)
    requires start <= |bz|
    ensures s == ReadField(bz[start..], want)
  {
    hide Decode, FieldNumber, Usize;
    ghost var rest := bz[start..];
    var tag := ReadVarint(bz, start);
    if tag.None? {
      return Malformed;
    }
    var i := start + tag.value.consumed;
    assert rest[tag.value.consumed..] == bz[i..];
    var wire := tag.value.value % 8;
    if wire == 0 {
      var v := ReadVarint(bz, i);
      if v.None? {
        return Malformed;
      }
      i := i + v.value.consumed;
    } else if wire == 1 {
      i := i + 8;
    } else if wire == 5 {
      i := i + 4;
    } else if wire == 2 {
      var len := ReadVarint(bz, i);
      if len.None? {
        return Malformed;
      }
      i := i + len.value.consumed;
      var n := Usize(len.value.value);
      if i + n > |bz| {
        return Malformed;
      }
      if FieldNumber(tag.value.value) == want {
        assert bz[i..i + n] == rest[i - start..i - start + n];
        return Found(bz[i..i + n]);
      }
      i := i + n;
    } else {
      return Malformed;
    }
    return if i > |bz| then Malformed else Next(i - start);
  }

  /** What one turn of the loop means for the whole search. */
  ghost predicate Advances(bz: Bytes, i: nat, want: nat, s: FieldStep)
    requires i <= |bz|
  {
    match s
    case Malformed => GetField(bz[i..], want) == None
    case Found(data) => GetField(bz[i..], want) == Some(data)
    case Next(n) => 0 < n <= |bz| - i && GetField(bz[i..], want) == GetField(bz[i + n..], want)
  }

  lemma ReadFieldAdvances(bz: Bytes, i: nat, want: nat)
    requires i < |bz|
    ensures Advances(bz, i, want, ReadField(bz[i..], want))
  {
    match ReadField(bz[i..], want)
    case Next(n) => assert bz[i..][n..] == bz[i + n..];
    case _ =>
  }

  method Turn(bz: Bytes, i: nat, want: nat) returns (s: FieldStep)
    requires i < |bz|
    ensures Advances(bz, i, want, s)
  {
    s := ReadFieldAt(bz, i, want);
    ReadFieldAdvances(bz, i, want);
  }

  /** `get_len_field`. */
  method GetLenField(bz: Bytes, want: nat) returns (r: Option<Bytes>)
    ensures r == GetField(bz, want)
  {
    hide ReadField;
    var i := 0;
    ghost var answer := GetField(bz, want);
    assert bz[0..] == bz;
    while i < |bz|
      invariant 0 <= i <= |bz|
      invariant GetField(bz[i..], want) == answer
    {
      var s := Turn(bz, i, want);
      match s {
        case Malformed => return None;
        case Found(data) => return Some(data);
        case Next(n) => i := i + n;
      }
    }
    assert bz[i..] == [];
    return None;
  }

  lemma ReadLenField(b: Bytes, field: nat, tag: Read, len: Read, want: nat)
    requires field < TWO_32 && tag.value == field * 8 + 2 && len.value < TWO_32
    requires Decode(b) == Some(tag) && Decode(b[tag.consumed..]) == Some(len)
    requires tag.consumed + len.consumed + len.value <= |b|
    ensures var from := tag.consumed + len.consumed; var to := from + len.value;
            ReadField(b, want) == if field == want then Found(b[from..to]) else Next(to)
  {
    hide Decode, FieldNumber, Usize;
    TagParts(field);
    SmallMod(len.value);
  }

  lemma TagParts(field: nat)
    requires field < TWO_32
    ensures (field * 8 + 2) % 8 == 2 && FieldNumber(field * 8 + 2) == field
  {
    assert (field * 8 + 2) / 8 == field;
    SmallMod(field);
  }

  lemma SmallMod(n: nat)
    requires n < TWO_32
    ensures Usize(n) == n
  {
  }

  lemma ReadWritten(field: nat, data: Bytes, rest: Bytes, want: nat)
    requires 0 < field < TWO_32 && |data| < TWO_32
    ensures ReadField(LenField(field, data) + rest, want) ==
            if field == want then Found(data) else Next(|LenField(field, data)|)
  {
    hide Encode, Decode, ReadField;
    var b := LenField(field, data) + rest;
    var tag, len := Encode(field * 8 + 2), Encode(|data|);
    var at, from := |tag|, |tag| + |len|;
    assert b == tag + (len + (data + rest)) && b[at..] == len + (data + rest);
    DecodeEncode(field * 8 + 2, len + (data + rest));
    DecodeEncode(|data|, data + rest);
    ReadLenField(b, field, Read(field * 8 + 2, at), Read(|data|, |len|), want);
    assert b[from..from + |data|] == data;
  }

  /** Reading past one written field: found, or skipped whole. */
  lemma GetWritten(field: nat, data: Bytes, rest: Bytes, want: nat)
    requires 0 < field < TWO_32 && |data| < TWO_32
    ensures GetField(LenField(field, data) + rest, want) ==
            if field == want then Some(data) else GetField(rest, want)
  {
    ReadWritten(field, data, rest, want);
    assert (LenField(field, data) + rest)[|LenField(field, data)|..] == rest;
  }

  /** A number is skipped whole. */
  lemma GetSkipsNumber(field: nat, v: nat, rest: Bytes, want: nat)
    requires field < TWO_32 && v <= U64_MAX
    ensures GetField(Encode(field * 8) + (Encode(v) + rest), want) == GetField(rest, want)
  {
    hide Encode, Decode;
    DecodeEncode(v, rest);
    SkipTo(field * 8, Encode(v), rest);
  }

  /** So are eight bytes of wire type 1 and four of wire type 5; fewer end the search. */
  lemma GetSkipsFixed(field: nat, wide: bool, fixed: Bytes, rest: Bytes, want: nat)
    requires field < TWO_32
    ensures var tag := Encode(field * 8 + if wide then 1 else 5);
            && (|fixed| == (if wide then 8 else 4) ==> GetField(tag + (fixed + rest), want) == GetField(rest, want))
            && (|fixed| < (if wide then 8 else 4) ==> GetField(tag + fixed, want).None?)
  {
    hide Encode, Decode, ReadField, GetField;
    var tag := field * 8 + if wide then 1 else 5;
    SkipTo(tag, fixed, rest);
    SkipTo(tag, fixed, []);
    ReadsFixed(Encode(tag) + (fixed + rest), tag, |Encode(tag)|, want);
    ReadsFixed(Encode(tag) + fixed, tag, |Encode(tag)|, want);
    GetUnfolds(Encode(tag) + (fixed + rest), want);
    GetUnfolds(Encode(tag) + fixed, want);
  }

  lemma ReadsFixed(b: Bytes, tag: nat, at: nat, want: nat)
    requires Decode(b) == Some(Read(tag, at)) && (tag % 8 == 1 || tag % 8 == 5)
    ensures var end := at + if tag % 8 == 1 then 8 else 4;
            ReadField(b, want) == if end > |b| then Malformed else Next(end)
  {
    hide Decode;
  }

  lemma GetUnfolds(b: Bytes, want: nat)
    requires b != []
    ensures ReadField(b, want).Malformed? ==> GetField(b, want).None?
    ensures ReadField(b, want).Next? ==> GetField(b, want) == GetField(b[ReadField(b, want).consumed..], want)
  {
    hide ReadField;
  }

  lemma SkipTo(tag: nat, body: Bytes, rest: Bytes)
    requires tag <= U64_MAX
    ensures var b, at := Encode(tag) + (body + rest), |Encode(tag)|;
            && Decode(b) == Some(Read(tag, at)) && at > 0 && b[at..] == body + rest
            && b[at + |body|..] == rest && Encode(tag) + (body + []) == Encode(tag) + body
  {
    DecodeEncode(tag, body + rest);
    assert body + [] == body;
  }

  // ----- wrapper messages -----

  /** `encode_height`. */
  function EncodeHeight(h: Height): Bytes {
    VarintField(1, h.revisionNumber) + VarintField(2, h.revisionHeight)
  }

  /** `encode_wasm_client_state`. */
  function EncodeWasmClientState(data: Bytes, checksum: Bytes, latest: Height): Bytes {
    LenField(1, data) + (LenField(2, checksum) + LenField(3, EncodeHeight(latest)))
  }

  /** `encode_wasm_consensus_state`. */
  function EncodeWasmConsensusState(data: Bytes): Bytes {
    LenField(1, data)
  }

  /** `encode_any`. */
  function EncodeAny(typeUrl: Bytes, value: Bytes): Bytes {
    LenField(1, typeUrl) + LenField(2, value)
  }

  /** A number as the chain reads it from a message of numbers: zero when left out. */
  ghost function NumberIn(bz: Bytes, want: nat): nat
    decreases |bz|
  {
    match Decode(bz)
    case None => 0
    case Some(tag) =>
      match Decode(bz[tag.consumed..])
      case None => 0
      case Some(v) => if tag.value == want * 8 then v.value else NumberIn(bz[tag.consumed + v.consumed..], want)
  }

  lemma NumberWritten(field: nat, v: nat, rest: Bytes, want: nat)
    requires field < TWO_32 && v <= U64_MAX
    ensures NumberIn(VarintField(field, v) + rest, want) ==
            if v != 0 && field == want then v else NumberIn(rest, want)
  {
    hide Encode, Decode;
    if v == 0 {
      assert VarintField(field, v) + rest == rest;
    } else {
      assert VarintField(field, v) + rest == Encode(field * 8) + (Encode(v) + rest);
      DecodeEncode(field * 8, Encode(v) + rest);
      DecodeEncode(v, rest);
      SkipTo(field * 8, Encode(v), rest);
    }
  }

  /** What the chain finds in a stored client state: the data, the checksum, and both
      numbers of the latest height. */
  lemma ChainReadsClientState(data: Bytes, checksum: Bytes, latest: Height)
    requires latest.revisionNumber <= U64_MAX && latest.revisionHeight <= U64_MAX
    requires |data| < TWO_32 && |checksum| < TWO_32
    ensures var value := EncodeWasmClientState(data, checksum, latest);
            && GetField(value, 1) == Some(data) && GetField(value, 2) == Some(checksum)
            && GetField(value, 3).Some?
            && NumberIn(GetField(value, 3).value, 1) == latest.revisionNumber
            && NumberIn(GetField(value, 3).value, 2) == latest.revisionHeight
  {
    hide GetField, LenField, VarintField;
    var height := EncodeHeight(latest);
    HeightIsShort(latest);
    GetWritten(1, data, LenField(2, checksum) + LenField(3, height), 1);
    forall want | want == 2 || want == 3
      ensures GetField(EncodeWasmClientState(data, checksum, latest), want) ==
              GetField(LenField(2, checksum) + LenField(3, height), want)
    {
      GetWritten(1, data, LenField(2, checksum) + LenField(3, height), want);
    }
    GetWritten(2, checksum, LenField(3, height), 2);
    GetWritten(2, checksum, LenField(3, height), 3);
    assert LenField(3, height) == LenField(3, height) + [];
    GetWritten(3, height, [], 3);
    HeightReads(latest);
  }

  lemma HeightReads(h: Height)
    requires h.revisionNumber <= U64_MAX && h.revisionHeight <= U64_MAX
    ensures NumberIn(EncodeHeight(h), 1) == h.revisionNumber && NumberIn(EncodeHeight(h), 2) == h.revisionHeight
  {
    hide VarintField, NumberIn;
    var second := VarintField(2, h.revisionHeight);
    assert second == second + [];
    forall want | want == 1 || want == 2
      ensures NumberIn(EncodeHeight(h), want) == if want == 1 then h.revisionNumber else h.revisionHeight
    {
      NumberWritten(1, h.revisionNumber, second, want);
      NumberWritten(2, h.revisionHeight, [], want);
      NoNumbers(want);
    }
  }

  lemma NoNumbers(want: nat)
    ensures NumberIn([], want) == 0
  {
  }

  method HeightBytes(h: Height) returns (out: Bytes)
    requires h.revisionNumber <= U64_MAX && h.revisionHeight <= U64_MAX
    ensures out == EncodeHeight(h)
  {
    out := PutVarintField([], 1, h.revisionNumber);
    out := PutVarintField(out, 2, h.revisionHeight);
  }

  method WasmClientStateBytes(data: Bytes, checksum: Bytes, latest: Height) returns (out: Bytes)
    requires latest.revisionNumber <= U64_MAX && latest.revisionHeight <= U64_MAX
    requires |data| < TWO_32 && |checksum| < TWO_32
    ensures out == EncodeWasmClientState(data, checksum, latest)
  {
    hide LenField, EncodeHeight;
    var height := HeightBytes(latest);
    HeightIsShort(latest);
    out := PutLen([], 1, data);
    out := PutLen(out, 2, checksum);
    out := PutLen(out, 3, height);
    assert [] + LenField(1, data) == LenField(1, data);
  }

  method AnyBytes(typeUrl: Bytes, value: Bytes) returns (out: Bytes)
    requires |typeUrl| < TWO_32 && |value| <= U64_MAX
    ensures out == EncodeAny(typeUrl, value)
  {
    out := PutLen([], 1, typeUrl);
    out := PutLen(out, 2, value);
  }

  lemma WasmClientStateIsShort(data: Bytes, checksum: Bytes, latest: Height)
    requires latest.revisionNumber <= U64_MAX && latest.revisionHeight <= U64_MAX
    requires |data| < TWO_32 && |checksum| < TWO_32
    ensures |EncodeWasmClientState(data, checksum, latest)| <= U64_MAX
  {
    HeightIsShort(latest);
    VarintIsShort(|data|);
    VarintIsShort(|checksum|);
    VarintIsShort(|EncodeHeight(latest)|);
  }

  // ----- host keys -----

  function Ascii(s: string): Bytes {
    seq(|s|, i requires 0 <= i < |s| => (s[i] as int % 256) as byte)
  }

  function Decimal(n: nat): (b: Bytes)
    ensures b != [] && forall d <- b :: 48 <= d < 58
  {
    if n < 10 then [(48 + n) as byte] else Decimal(n / 10) + [(48 + n % 10) as byte]
  }

  function ParseDecimal(b: Bytes): int {
    if b == [] then 0
    else 10 * ParseDecimal(b[..|b| - 1]) + b[|b| - 1] as int - 48
  }

  lemma {:induction false} DecimalRoundTrip(n: nat)
    ensures ParseDecimal(Decimal(n)) == n
  {
    if n < 10 {
      assert Decimal(n)[..0] == [];
    } else {
      DecimalRoundTrip(n / 10);
      assert Decimal(n)[..|Decimal(n)| - 1] == Decimal(n / 10);
    }
  }

  const CONSENSUS_PREFIX: Bytes := Ascii("consensusStates/")
  const CLIENT_STATE_KEY: Bytes := Ascii("clientState")
  const CLIENT_STATE_TYPE_URL: Bytes := Ascii("/ibc.lightclients.wasm.v1.ClientState")
  const CONSENSUS_STATE_TYPE_URL: Bytes := Ascii("/ibc.lightclients.wasm.v1.ConsensusState")

  /** `consensus_state_key`. */
  function ConsensusKey(h: Height): Bytes {
    CONSENSUS_PREFIX + (Decimal(h.revisionNumber) + ([45] + Decimal(h.revisionHeight)))
  }

  /** The first `-` ends the first number. */
  lemma SplitAtDash(a: Bytes, x: Bytes, b: Bytes, y: Bytes)
    requires 45 !in a && 45 !in b
    requires a + ([45] + x) == b + ([45] + y)
    ensures a == b && x == y
  {
    var s, t := a + ([45] + x), b + ([45] + y);
    assert s[|a|] == 45 && t[|b|] == 45;
    assert forall i :: 0 <= i < |a| ==> s[i] == a[i];
    assert forall i :: 0 <= i < |b| ==> t[i] == b[i];
    assert |a| == |b|;
    assert a == s[..|a|] && b == t[..|b|];
    assert x == s[|a| + 1..] && y == t[|b| + 1..];
  }

  /** Distinct heights have distinct keys, none of them the client-state key. */
  lemma ConsensusKeyInjective(g: Height, h: Height)
    ensures ConsensusKey(g) == ConsensusKey(h) <==> g == h
    ensures ConsensusKey(g) != CLIENT_STATE_KEY
  {
    if ConsensusKey(g) == ConsensusKey(h) {
      var n := |CONSENSUS_PREFIX|;
      assert ConsensusKey(g)[n..] == Decimal(g.revisionNumber) + ([45] + Decimal(g.revisionHeight));
      assert ConsensusKey(h)[n..] == Decimal(h.revisionNumber) + ([45] + Decimal(h.revisionHeight));
      SplitAtDash(Decimal(g.revisionNumber), Decimal(g.revisionHeight),
                  Decimal(h.revisionNumber), Decimal(h.revisionHeight));
      DecimalRoundTrip(g.revisionNumber);
      DecimalRoundTrip(g.revisionHeight);
      DecimalRoundTrip(h.revisionNumber);
      DecimalRoundTrip(h.revisionHeight);
    }
    assert ConsensusKey(g)[1] == 'o' as byte && CLIENT_STATE_KEY[1] == 'l' as byte;
  }

  // ----- save and load -----

  datatype Saved = Saved(json: Bytes, checksum: Bytes)

  datatype LoadError = Absent | MissingValue | MissingData | MissingChecksum

  /** The client-prefixed key-value store shared with the host. The JSON layer on
      top is an injective encoding and is not modelled; `json` is its output. */
  class HostStorage {
    var kv: map<Bytes, Bytes>

    constructor ()
      ensures kv == map[]
    {
      kv := map[];
    }

    /** `save_client_state`. */
    method SaveClientState(json: Bytes, checksum: Bytes, latest: Height)
      requires |json| < TWO_32 && |checksum| < TWO_32
      requires latest.revisionNumber <= U64_MAX && latest.revisionHeight <= U64_MAX
      modifies this
      ensures kv == WithClient(old(kv), json, checksum, latest)
    {
      var value := WasmClientStateBytes(json, checksum, latest);
      WasmClientStateIsShort(json, checksum, latest);
      var any := AnyBytes(CLIENT_STATE_TYPE_URL, value);
      kv := kv[CLIENT_STATE_KEY := any];
    }

    /** `load_client_state`, up to the JSON. */
    method LoadClientState() returns (r: Result<Saved, LoadError>)
      ensures r == LoadedClient(kv)
    {
      if CLIENT_STATE_KEY !in kv {
        return Err(Absent);
      }
      var value := GetLenField(kv[CLIENT_STATE_KEY], 2);
      if value.None? {
        return Err(MissingValue);
      }
      var json := GetLenField(value.value, 1);
      if json.None? {
        return Err(MissingData);
      }
      var checksum := GetLenField(value.value, 2);
      if checksum.None? {
        return Err(MissingChecksum);
      }
      return Ok(Saved(json.value, checksum.value));
    }

    /** `save_consensus_state`. */
    method SaveConsensusState(h: Height, json: Bytes)
      requires |json| < TWO_32
      modifies this
      ensures kv == WithConsensus(old(kv), h, json)
    {
      var value := PutLen([], 1, json);
      assert value == EncodeWasmConsensusState(json);
      VarintIsShort(|json|);
      var any := AnyBytes(CONSENSUS_STATE_TYPE_URL, value);
      kv := kv[ConsensusKey(h) := any];
    }

    /** `may_load_consensus_state`, up to the JSON. */
    method MayLoadConsensusState(h: Height) returns (r: Result<Option<Bytes>, LoadError>)
      ensures r == LoadedConsensus(kv, h)
    {
      if ConsensusKey(h) !in kv {
        return Ok(None);
      }
      var value := GetLenField(kv[ConsensusKey(h)], 2);
      if value.None? {
        return Err(MissingValue);
      }
      var json := GetLenField(value.value, 1);
      return if json.None? then Err(MissingData) else Ok(json);
    }
  }

  function LoadedClient(kv: map<Bytes, Bytes>): Result<Saved, LoadError> {
    if CLIENT_STATE_KEY !in kv then Err(Absent)
    else
      match GetField(kv[CLIENT_STATE_KEY], 2)
      case None => Err(MissingValue)
      case Some(value) =>
        match GetField(value, 1)
        case None => Err(MissingData)
        case Some(json) =>
          match GetField(value, 2)
          case None => Err(MissingChecksum)
          case Some(checksum) => Ok(Saved(json, checksum))
  }

  function LoadedConsensus(kv: map<Bytes, Bytes>, h: Height): Result<Option<Bytes>, LoadError> {
    if ConsensusKey(h) !in kv then Ok(None)
    else
      match GetField(kv[ConsensusKey(h)], 2)
      case None => Err(MissingValue)
      case Some(value) =>
        match GetField(value, 1)
        case None => Err(MissingData)
        case Some(json) => Ok(Some(json))
  }

  /** The storage after `save_client_state`, and after `save_consensus_state`. */
  function WithClient(kv: map<Bytes, Bytes>, json: Bytes, checksum: Bytes, latest: Height): map<Bytes, Bytes> {
    kv[CLIENT_STATE_KEY := EncodeAny(CLIENT_STATE_TYPE_URL, EncodeWasmClientState(json, checksum, latest))]
  }

  function WithConsensus(kv: map<Bytes, Bytes>, h: Height, json: Bytes): map<Bytes, Bytes> {
    kv[ConsensusKey(h) := EncodeAny(CONSENSUS_STATE_TYPE_URL, EncodeWasmConsensusState(json))]
  }

  /** A varint of a `u64` takes at most ten bytes. */
  lemma VarintIsShort(v: nat)
    requires v <= U64_MAX
    ensures |Encode(v)| <= 10
  {
    DecodeEncode(v, []);
    DecodeConsumes(Encode(v) + [], 0);
  }

  lemma {:induction false} DecodeConsumes(b: Bytes, k: nat)
    requires k <= 10 && Decode(b, k).Some?
    ensures Decode(b, k).value.consumed <= 10 - k
    decreases 10 - k
  {
    if b[0] >= 128 {
      DecodeConsumes(b[1..], k + 1);
    }
  }

  lemma HeightIsShort(h: Height)
    requires h.revisionNumber <= U64_MAX && h.revisionHeight <= U64_MAX
    ensures |EncodeHeight(h)| <= 22
  {
    VarintIsShort(h.revisionNumber);
    VarintIsShort(h.revisionHeight);
  }

  /** Writing the client state and reading it back returns the same JSON and the same
      checksum, empty or not, and leaves every consensus state as it was. */
  lemma LoadAfterSaveClient(kv: map<Bytes, Bytes>, json: Bytes, checksum: Bytes, latest: Height)
    requires latest.revisionNumber <= U64_MAX && latest.revisionHeight <= U64_MAX
    requires |json| < TWO_32 && |checksum| < TWO_32
    requires |EncodeWasmClientState(json, checksum, latest)| < TWO_32
    ensures var kv' := WithClient(kv, json, checksum, latest);
            && LoadedClient(kv') == Ok(Saved(json, checksum))
            && forall h :: LoadedConsensus(kv', h) == LoadedConsensus(kv, h)
  {
    hide GetField, ConsensusKey, EncodeAny, EncodeWasmClientState;
    ClientReadsBack(json, checksum, latest);
    forall h: Height
      ensures ConsensusKey(h) != CLIENT_STATE_KEY
    {
      ConsensusKeyInjective(h, h);
    }
  }

  lemma ClientReadsBack(json: Bytes, checksum: Bytes, latest: Height)
    requires latest.revisionNumber <= U64_MAX && latest.revisionHeight <= U64_MAX
    requires |json| < TWO_32 && |checksum| < TWO_32
    requires |EncodeWasmClientState(json, checksum, latest)| < TWO_32
    ensures var value := EncodeWasmClientState(json, checksum, latest);
            && GetField(EncodeAny(CLIENT_STATE_TYPE_URL, value), 2) == Some(value)
            && GetField(value, 1) == Some(json) && GetField(value, 2) == Some(checksum)
  {
    hide GetField, LenField, EncodeHeight;
    var height := EncodeHeight(latest);
    HeightIsShort(latest);
    var value := EncodeWasmClientState(json, checksum, latest);
    var rest := LenField(2, checksum) + LenField(3, height);
    GetWritten(1, json, rest, 1);
    GetWritten(1, json, rest, 2);
    GetWritten(2, checksum, LenField(3, height), 2);
    GetWritten(1, CLIENT_STATE_TYPE_URL, LenField(2, value), 2);
    GetWritten(2, value, [], 2);
    assert LenField(2, value) + [] == LenField(2, value);
  }

  /** The same for a consensus state; no other height and no client state is touched. */
  lemma LoadAfterSaveConsensus(kv: map<Bytes, Bytes>, h: Height, json: Bytes)
    requires |json| < TWO_32 && |EncodeWasmConsensusState(json)| < TWO_32
    ensures var kv' := WithConsensus(kv, h, json);
            && LoadedConsensus(kv', h) == Ok(Some(json))
            && LoadedClient(kv') == LoadedClient(kv)
            && forall g :: g != h ==> LoadedConsensus(kv', g) == LoadedConsensus(kv, g)
  {
    hide GetField, ConsensusKey, EncodeAny, EncodeWasmConsensusState;
    ConsensusReadsBack(json);
    forall g: Height
      ensures ConsensusKey(g) == ConsensusKey(h) <==> g == h
      ensures ConsensusKey(g) != CLIENT_STATE_KEY
    {
      ConsensusKeyInjective(g, h);
    }
  }

  lemma ConsensusReadsBack(json: Bytes)
    requires |json| < TWO_32 && |EncodeWasmConsensusState(json)| < TWO_32
    ensures var value := EncodeWasmConsensusState(json);
            GetField(EncodeAny(CONSENSUS_STATE_TYPE_URL, value), 2) == Some(value) && GetField(value, 1) == Some(json)
  {
    hide GetField, LenField;
    var value := EncodeWasmConsensusState(json);
    GetWritten(1, json, [], 1);
    assert LenField(1, json) + [] == value;
    GetWritten(1, CONSENSUS_STATE_TYPE_URL, LenField(2, value), 2);
    GetWritten(2, value, [], 2);
    assert LenField(2, value) + [] == LenField(2, value);
  }
}
