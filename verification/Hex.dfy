/** Lower-case hexadecimal text, as the `hex` crate writes it. */
module Hex {
  import opened Common

  function Digit(n: nat): byte
    requires n < 16
  {
    (if n < 10 then 48 + n else 87 + n) as byte
  }

  /** Either case is accepted on the way in. */
  function DigitValue(c: byte): (v: Option<nat>)
    ensures v.Some? ==> v.value < 16
  {
    var n := c as nat;
    if 48 <= n < 58 then Some(n - 48)
    else if 97 <= n < 103 then Some(n - 87)
    else if 65 <= n < 71 then Some(n - 55)
    else None
  }

  /** `hex::encode`. */
  function Encode(b: Bytes): (s: Bytes)
    ensures |s| == 2 * |b|
  {
    if b == [] then []
    else [Digit(b[0] as nat / 16), Digit(b[0] as nat % 16)] + Encode(b[1..])
  }

  /** `hex::decode`. */
  function Decode(s: Bytes): Option<Bytes> {
    if s == [] then Some([])
    else if |s| == 1 then None
    else
      match (DigitValue(s[0]), DigitValue(s[1]), Decode(s[2..]))
      case (Some(hi), Some(lo), Some(rest)) => Some([(16 * hi + lo) as byte] + rest)
      case _ => None
  }

  lemma DigitRoundTrip(n: nat)
    requires n < 16
    ensures DigitValue(Digit(n)) == Some(n)
  {
  }

  lemma {:induction false} RoundTrip(b: Bytes)
    ensures Decode(Encode(b)) == Some(b)
    decreases |b|
  {
    if b != [] {
      RoundTrip(b[1..]);
      assert Encode(b)[2..] == Encode(b[1..]);
      DigitRoundTrip(b[0] as nat / 16);
      DigitRoundTrip(b[0] as nat % 16);
      assert b == [b[0]] + b[1..];
    }
  }

  lemma Injective(a: Bytes, b: Bytes)
    requires Encode(a) == Encode(b)
    ensures a == b
  {
    RoundTrip(a);
    RoundTrip(b);
  }
}
