/** Unsigned LEB128, written and read twice in the light client: for consensus
    proposals and for Protocol Buffers fields. */
module Varint {
  import opened Common

  const TWO_64: nat := 0x1_0000_0000_0000_0000

  /** The minimal encoding of `v`: seven bits a byte, low bits first. */
  function Encode(v: nat): (b: Bytes)
    ensures b != []
  {
    if v < 128 then [v as byte] else [(v % 128 + 128) as byte] + Encode(v / 128)
  }

  datatype Read = Read(value: nat, consumed: nat)

  /** What a reader makes of `b` when `k` bytes came before: at most ten bytes are
      read, and of the tenth only the lowest bit reaches a 64-bit result. */
  function Decode(b: Bytes, k: nat := 0): (r: Option<Read>)
    ensures r.Some? ==> 0 < r.value.consumed <= |b|
    decreases |b|
  {
    if b == [] || k >= 10 then None
    else
      var digit := if k == 9 then b[0] as nat % 2 else b[0] as nat % 128;
      if b[0] < 128 then Some(Read(digit, 1))
      else
        match Decode(b[1..], k + 1)
        case None => None
        case Some(r) => Some(Read(digit + 128 * r.value, 1 + r.consumed))
  }

  // ----- writers -----

  /** `write_uvarint`. */
  method WriteUvarint(buf: Bytes, value: nat) returns (out: Bytes)
    requires value <= U64_MAX
    ensures out == buf + Encode(value)
  {
    out := buf;
    var v := value;
    while true
      invariant v >= 0 && out + Encode(v) == buf + Encode(value)
      decreases v
    {
      var b := v % 128;
      if v / 128 != 0 {
        b := b + 128;
        assert out + ([b as byte] + Encode(v / 128)) == (out + [b as byte]) + Encode(v / 128);
      }
      out := out + [b as byte];
      v := v / 128;
      if v == 0 {
        break;
      }
    }
  }

  /** `put_varint`. */
  method PutVarint(buf: Bytes, value: nat) returns (out: Bytes)
    requires value <= U64_MAX
    ensures out == buf + Encode(value)
  {
    out := buf;
    var v := value;
    while true
      invariant v >= 0 && out + Encode(v) == buf + Encode(value)
      decreases v
    {
      var b := v % 128;
      if v / 128 == 0 {
        out := out + [b as byte];
        break;
      }
      var more := (b + 128) as byte;
      assert out + ([more] + Encode(v / 128)) == (out + [more]) + Encode(v / 128);
      out := out + [more];
      v := v / 128;
    }
  }

  // ----- readers -----

  function Pow128(k: nat): nat {
    if k == 0 then 1 else 128 * Pow128(k - 1)
  }

  /** The value of `(b & 0x7f) << (7 * k)` in 64 bits. */
  function ShiftedDigit(b: byte, k: nat): nat {
    (b as nat % 128 * Pow128(k)) % TWO_64
  }

  lemma Pow128Values()
    ensures Pow128(1) == 128 && Pow128(2) == 16384 && Pow128(3) == 2097152
    ensures Pow128(4) == 0x1000_0000 && Pow128(5) == 0x8_0000_0000 && Pow128(6) == 0x400_0000_0000
    ensures Pow128(7) == 0x2_0000_0000_0000 && Pow128(8) == 0x100_0000_0000_0000
    ensures Pow128(9) == 0x8000_0000_0000_0000
  {
  }

  /** Only the tenth byte can lose bits to the shift. */
  lemma ShiftedDigitValue(b: byte, k: nat)
    requires k < 10
    ensures ShiftedDigit(b, k) == Pow128(k) * (if k == 9 then b as nat % 2 else b as nat % 128)
  {
    var d := b as nat % 128;
    Pow128Bounds(k);
    hide Pow128;
    if k == 9 {
      TopDigit(d);
    } else {
      SmallDigit(d, Pow128(k));
    }
  }

  lemma Pow128Bounds(k: nat)
    requires k < 10
    ensures if k == 9 then Pow128(k) == 0x8000_0000_0000_0000 else Pow128(k) <= 0x100_0000_0000_0000
  {
    Pow128Values();
  }

  lemma TopDigit(d: nat)
    requires d < 128
    ensures (d * 0x8000_0000_0000_0000) % TWO_64 == 0x8000_0000_0000_0000 * (d % 2)
  {
    assert d * 0x8000_0000_0000_0000 == d / 2 * TWO_64 + d % 2 * 0x8000_0000_0000_0000;
  }

  lemma SmallDigit(d: nat, p: nat)
    requires d < 128 && p <= 0x100_0000_0000_0000
    ensures (d * p) % TWO_64 == p * d
  {
    assert d * p <= 127 * 0x100_0000_0000_0000 by {
      assert d * p <= 127 * p;
    }
  }

  /** `r` read after `k` bytes whose digits already sum to `sum`. */
  function After(sum: nat, k: nat, r: Option<Read>): Option<Read> {
    match r
    case None => None
    case Some(x) => Some(Read(sum + Pow128(k) * x.value, k + x.consumed))
  }

  /** One byte of the accumulating loops. */
  lemma AfterByte(sum: nat, k: nat, b: Bytes)
    requires b != [] && k < 10
    ensures b[0] < 128 ==>
              After(sum, k, Decode(b, k)) == Some(Read(sum + ShiftedDigit(b[0], k), k + 1))
    ensures b[0] >= 128 ==>
              After(sum, k, Decode(b, k)) == After(sum + ShiftedDigit(b[0], k), k + 1, Decode(b[1..], k + 1))
  {
    ShiftedDigitValue(b[0], k);
    var d := if k == 9 then b[0] as nat % 2 else b[0] as nat % 128;
    if b[0] >= 128 {
      match Decode(b[1..], k + 1)
      case None =>
      case Some(r) =>
        Distribute(Pow128(k), d, r.value);
    }
  }

  lemma Distribute(p: nat, d: nat, v: nat)
    ensures p * (d + 128 * v) == p * d + (128 * p) * v
  {
  }

  /** `read_uvarint`: `shift` is `7 * k`; the position also moves on failure, which
      no caller observes. */
  method ReadUvarint(buf: Bytes, start: nat) returns (r: Option<Read>)
    requires start <= |buf|
    ensures r == Decode(buf[start..])
  {
    var result := 0;
    var k := 0;
    while true
      invariant result >= 0 && 0 <= k <= 10 && start + k <= |buf|
      invariant After(result, k, Decode(buf[start + k..], k)) == Decode(buf[start..])
      decreases |buf| - k
    {
      if start + k >= |buf| {
        return None;
      }
      var b := buf[start + k];
      if 7 * k >= 64 {
        return None;
      }
      AfterByte(result, k, buf[start + k..]);
      assert buf[start + k..][1..] == buf[start + k + 1..];
      result := result + ShiftedDigit(b, k);
      k := k + 1;
      if b < 128 {
        return Some(Read(result, k));
      }
    }
    assert false;
  }

  /** `read_varint`. */
  method ReadVarint(bz: Bytes, start: nat) returns (r: Option<Read>)
    requires start <= |bz|
    ensures r == Decode(bz[start..])
  {
    var v := 0;
    var k := 0;
    while start + k < |bz|
      invariant v >= 0 && 0 <= k < 10 && start + k <= |bz|
      invariant After(v, k, Decode(bz[start + k..], k)) == Decode(bz[start..])
      decreases |bz| - k
    {
      var b := bz[start + k];
      AfterByte(v, k, bz[start + k..]);
      assert bz[start + k..][1..] == bz[start + k + 1..];
      v := v + ShiftedDigit(b, k);
      k := k + 1;
      if b < 128 {
        return Some(Read(v, k));
      }
      if 7 * k >= 64 {
        return None;
      }
    }
    return None;
  }

  // ----- round trip -----

  /** One more than the largest value still encodable after `k` bytes. */
  function Room(k: nat): nat
    requires k <= 9
    decreases 9 - k
  {
    if k == 9 then 2 else 128 * Room(k + 1)
  }

  lemma {:induction false} DecodeEncodeFrom(v: nat, rest: Bytes, k: nat)
    requires k <= 9 && v < Room(k)
    ensures Decode(Encode(v) + rest, k) == Some(Read(v, |Encode(v)|))
    decreases 9 - k
  {
    if v >= 128 {
      DecodeEncodeFrom(v / 128, rest, k + 1);
      assert (Encode(v) + rest)[1..] == Encode(v / 128) + rest;
    }
  }

  /** Reading inverts writing on every `u64`, and consumes exactly what was written. */
  lemma DecodeEncode(v: nat, rest: Bytes)
    requires v <= U64_MAX
    ensures Decode(Encode(v) + rest) == Some(Read(v, |Encode(v)|))
  {
    assert Room(5) == 0x2000_0000;
    assert Room(0) == TWO_64;
    DecodeEncodeFrom(v, rest, 0);
  }

  /** A varint cut short never reads. */
  lemma {:induction false} DecodeCut(v: nat, n: nat, k: nat)
    requires n < |Encode(v)|
    ensures Decode(Encode(v)[..n], k) == None
    decreases n
  {
    if n > 0 {
      DecodeCut(v / 128, n - 1, k + 1);
      assert Encode(v)[..n][1..] == Encode(v / 128)[..n - 1];
    }
  }
}
