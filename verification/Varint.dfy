/**
 Unsigned varints as Go's encoding/binary reads them, the encoder of the
 multiformats unsigned-varint specification, and 64-bit integer conversion.
 */
module Varint {

  type byte = b: nat | b < 256

  const TWO_63: int := 0x8000_0000_0000_0000
  const TWO_64: int := 0x1_0000_0000_0000_0000

  /** Go's int arithmetic: values outside the signed 64-bit range wrap around. */
  function ToInt(v: int): int {
    if -TWO_63 <= v < TWO_63 then v else (v + TWO_63) % TWO_64 - TWO_63
  }

  lemma ToIntWraps(v: int)
    ensures -TWO_63 <= ToInt(v) < TWO_63
    ensures (ToInt(v) - v) % TWO_64 == 0
  {
  }

  /** Converting a summand first makes no difference to a sum that wraps around. */
  lemma ToIntOfSum(a: int, b: int)
    ensures ToInt(a + ToInt(b)) == ToInt(a + b)
  {
    ToIntWraps(b);
    ToIntWraps(a + b);
    ToIntWraps(a + ToInt(b));
  }

  /**
   binary.Uvarint once `i` bytes have been read: the value still to come and
   the number of bytes it takes; a size of zero means the buffer ended early,
   a negative size means the value needs more than 64 bits.
   */
  function UvarintAfter(buf: seq<byte>, i: nat): (r: (nat, int))
    ensures r.1 <= |buf|
    ensures r.1 <= 0 ==> r.0 == 0
  {
    if buf == [] then (0, 0)
    else if i == 10 then (0, -11)
    else if buf[0] < 128 then
      if i == 9 && buf[0] > 1 then (0, -10) else (buf[0], 1)
    else
      var (value, size) := UvarintAfter(buf[1..], i + 1);
      if size <= 0 then (0, size) else (buf[0] - 128 + 128 * value, size + 1)
  }

  function Uvarint(buf: seq<byte>): (nat, int) {
    UvarintAfter(buf, 0)
  }

  function Encode(v: nat): seq<byte> {
    if v < 128 then [v] else [v % 128 + 128] + Encode(v / 128)
  }

  /** What is left of the 64 bits after i bytes of 7 bits each. */
  function Limit(i: nat): nat {
    if i == 0 then TWO_64 else Limit(i - 1) / 128
  }

  lemma LimitValues()
    ensures Limit(9) == 2
    ensures Limit(10) == 0
  {
    assert Limit(1) == 0x200_0000_0000_0000;
    assert Limit(2) == 0x4_0000_0000_0000;
    assert Limit(3) == 0x800_0000_0000;
    assert Limit(4) == 0x10_0000_0000;
    assert Limit(5) == 0x2000_0000;
    assert Limit(6) == 0x40_0000;
    assert Limit(7) == 0x8000;
    assert Limit(8) == 0x100;
  }

  lemma LimitAligned(i: nat)
    requires i < 9
    ensures Limit(i) == 128 * Limit(i + 1)
  {
    LimitValues();
  }

  lemma {:induction false} RoundTripAfter(v: nat, rest: seq<byte>, i: nat)
    requires i <= 9 && v < Limit(i)
    ensures UvarintAfter(Encode(v) + rest, i) == (v, |Encode(v)|)
    ensures |Encode(v)| <= 10 - i
  {
    LimitValues();
    if v >= 128 {
      LimitAligned(i);
      RoundTripAfter(v / 128, rest, i + 1);
      assert (Encode(v) + rest)[1..] == Encode(v / 128) + rest;
    }
  }

  /** Decoding an encoded 64-bit value gives it back with its length, whatever follows it. */
  lemma RoundTrip(v: nat, rest: seq<byte>)
    requires v < TWO_64
    ensures Uvarint(Encode(v) + rest) == (v, |Encode(v)|)
    ensures 1 <= |Encode(v)| <= 10
  {
    RoundTripAfter(v, rest, 0);
  }

  /** A cut-off encoding is reported as too short, never as another value. */
  lemma {:induction false} TruncatedAfter(v: nat, k: nat, i: nat)
    requires i <= 9 && v < Limit(i) && k < |Encode(v)|
    ensures UvarintAfter(Encode(v)[..k], i) == (0, 0)
  {
    LimitValues();
    if k > 0 {
      LimitAligned(i);
      TruncatedAfter(v / 128, k - 1, i + 1);
      assert Encode(v)[..k][1..] == Encode(v / 128)[..k - 1];
    }
  }

  /** The value read fits what is left of the 64 bits. */
  lemma {:induction false} ValueFits(buf: seq<byte>, i: nat)
    requires i <= 10 && UvarintAfter(buf, i).1 > 0
    ensures UvarintAfter(buf, i).0 < Limit(i)
  {
    LimitValues();
    if buf[0] >= 128 {
      ValueFits(buf[1..], i + 1);
      if i < 9 { LimitAligned(i); }
    } else if i < 9 {
      LimitAtLeast(i);
    }
  }

  /** The decoder reads only the bytes it reports, and its value fits 64 bits. */
  lemma {:induction false} LocalAfter(buf: seq<byte>, rest: seq<byte>, i: nat)
    requires i <= 10 && UvarintAfter(buf, i).1 > 0
    ensures UvarintAfter(buf[..UvarintAfter(buf, i).1] + rest, i) == UvarintAfter(buf, i)
    ensures UvarintAfter(buf, i).0 < Limit(i)
  {
    ValueFits(buf, i);
    hide Limit;
    var (value, size) := UvarintAfter(buf, i);
    var again := buf[..size] + rest;
    if buf[0] >= 128 {
      LocalAfter(buf[1..], rest, i + 1);
      assert again[1..] == buf[1..][..size - 1] + rest;
    }
  }

  lemma {:induction false} LimitAtLeast(i: nat)
    requires i < 9
    ensures Limit(i) >= 128
    decreases 9 - i
  {
    LimitValues();
    LimitAligned(i);
    if i < 8 { LimitAtLeast(i + 1); }
  }

  /**
   Exactly the minimal encodings are encoder output: the decoder also accepts
   a padded encoding, recognisable by its final zero byte.
   */
  lemma {:induction false} CanonicalAfter(buf: seq<byte>, i: nat)
    requires i <= 10 && UvarintAfter(buf, i).1 > 0
    ensures var (value, size) := UvarintAfter(buf, i);
            buf[..size] == Encode(value) <==> size == 1 || buf[size - 1] != 0
  {
    var (value, size) := UvarintAfter(buf, i);
    if buf[0] >= 128 {
      CanonicalAfter(buf[1..], i + 1);
      var (value', size') := UvarintAfter(buf[1..], i + 1);
      assert buf[..size] == [buf[0]] + buf[1..][..size'];
      if value' == 0 {
        ZeroIsPadding(buf[1..], i + 1);
      } else {
        assert value % 128 == buf[0] - 128 && value / 128 == value';
        assert Encode(value) == [buf[0]] + Encode(value');
        if size' == 1 { assert buf[1] == value'; }
      }
    }
  }

  lemma {:induction false} ZeroIsPadding(buf: seq<byte>, i: nat)
    requires i <= 10 && UvarintAfter(buf, i).1 > 0 && UvarintAfter(buf, i).0 == 0
    ensures buf[UvarintAfter(buf, i).1 - 1] == 0
  {
    if buf[0] >= 128 {
      ZeroIsPadding(buf[1..], i + 1);
    }
  }

  lemma Canonical(buf: seq<byte>)
    requires Uvarint(buf).1 > 0
    ensures var (value, size) := Uvarint(buf);
            value < TWO_64 && (buf[..size] == Encode(value) <==> size == 1 || buf[size - 1] != 0)
  {
    CanonicalAfter(buf, 0);
    LocalAfter(buf, [], 0);
  }
}
