/**
 Base 128 varints as the generated protobuf code of x/nft writes and reads
 them: the size function `sovNft`, its zig-zag variant `sozNft`, the
 backwards writer `encodeVarintNft`, and the byte-at-a-time decode loop that
 `Unmarshal` and `skipNft` repeat for every tag and length.
 */
module Varint {
  import opened Wrappers
  import opened Bytes

  const Two64: int := 0x1_0000_0000_0000_0000

  type uint64 = x: int | 0 <= x < 0x1_0000_0000_0000_0000

  /** Failures of the wire decoder; one constructor per error value or message of the source. */
  datatype WireError =
    | UnexpectedEOF                    // io.ErrUnexpectedEOF
    | IntOverflow                      // ErrIntOverflowNft
    | InvalidLength                    // ErrInvalidLengthNft
    | UnexpectedEndOfGroup             // ErrUnexpectedEndOfGroupNft
    | EndGroupForNonGroup              // "wiretype end group for non-group"
    | IllegalTag(fieldNum: int, wire: int)  // "illegal tag %d (wire type %d)", printing the whole tag
    | WrongWireType(fieldNum: int, wireType: int)
    | IllegalWireType(wireType: int)   // "illegal wireType %d" in skipNft

  function Pow128(n: nat): (p: nat)
    ensures p >= 1
  {
    if n == 0 then 1 else 128 * Pow128(n - 1)
  }

  /** v has exactly n base-128 digits. */
  predicate DigitCount(v: nat, n: nat) {
    v < Pow128(n) && (n > 1 ==> Pow128(n - 1) <= v)
  }

  /** The reference encoding of v: its base-128 digits, least significant first, each but the last with bit 0x80 set. */
  function Encode(v: nat): (r: seq<byte>)
    ensures |r| >= 1
  {
    if v < 0x80 then [v] else [v % 0x80 + 0x80] + Encode(v / 0x80)
  }

  /** The encoding of v has as many bytes as v has base-128 digits. */
  lemma {:induction false} EncodeDigitCount(v: nat)
    ensures DigitCount(v, |Encode(v)|)
    decreases v
  {
    if v >= 0x80 {
      EncodeDigitCount(v / 0x80);
      var n := |Encode(v / 0x80)|;
      assert Pow128(n + 1) == 0x80 * Pow128(n);
    }
  }

  /** Every byte of an encoding but the last has the continuation bit 0x80 set; the last does not. */
  lemma {:induction false} EncodeContinuationBits(v: nat)
    ensures var r := Encode(v);
            && r[|r| - 1] < 0x80
            && (forall i | 0 <= i < |r| - 1 :: r[i] >= 0x80)
            && (v < 0x80 <==> |r| == 1)
    decreases v
  {
    if v >= 0x80 {
      EncodeContinuationBits(v / 0x80);
    }
  }

  /** `math/bits.Len64`: the number of bits needed to write x. */
  function BitLen(x: nat): nat {
    if x == 0 then 0 else 1 + BitLen(x / 2)
  }

  /** `x | 1` on an unsigned integer. */
  function Or1(x: nat): (r: nat) {
    if x % 2 == 0 then x + 1 else x
  }

  lemma BitLenBelow128(x: nat)
    requires 1 <= x < 0x80
    ensures 1 <= BitLen(x) <= 7
  {
    assert BitLen(x) == 1 + BitLen(x / 2);
    assert x / 2 < 64;
    var x1 := x / 2;
    if x1 > 0 {
      assert BitLen(x1) == 1 + BitLen(x1 / 2);
      var x2 := x1 / 2;
      if x2 > 0 {
        assert BitLen(x2) == 1 + BitLen(x2 / 2);
        var x3 := x2 / 2;
        if x3 > 0 {
          assert BitLen(x3) == 1 + BitLen(x3 / 2);
          var x4 := x3 / 2;
          if x4 > 0 {
            assert BitLen(x4) == 1 + BitLen(x4 / 2);
            var x5 := x4 / 2;
            if x5 > 0 {
              assert BitLen(x5) == 1 + BitLen(x5 / 2);
              var x6 := x5 / 2;
              if x6 > 0 {
                assert x6 < 2 && x6 / 2 == 0;
                assert BitLen(x6) == 1;
              }
            }
          }
        }
      }
    }
  }

  lemma BitLenShift7(x: nat)
    requires x >= 0x80
    ensures BitLen(x) == 7 + BitLen(x / 0x80)
  {
    var x1 := x / 2;
    var x2 := x1 / 2;
    var x3 := x2 / 2;
    var x4 := x3 / 2;
    var x5 := x4 / 2;
    var x6 := x5 / 2;
    var x7 := x6 / 2;
    assert x7 == x / 0x80;
    assert x6 >= 1;
    assert BitLen(x) == 1 + BitLen(x1);
    assert BitLen(x1) == 1 + BitLen(x2);
    assert BitLen(x2) == 1 + BitLen(x3);
    assert BitLen(x3) == 1 + BitLen(x4);
    assert BitLen(x4) == 1 + BitLen(x5);
    assert BitLen(x5) == 1 + BitLen(x6);
    assert BitLen(x6) == 1 + BitLen(x7);
  }

  /** For a positive y, ceil(BitLen(y) / 7) is the number of base-128 digits of y. */
  lemma {:induction false} DigitsFromBitLen(y: nat)
    requires y >= 1
    ensures (BitLen(y) + 6) / 7 == |Encode(y)|
    decreases y
  {
    if y < 0x80 {
      BitLenBelow128(y);
    } else {
      BitLenShift7(y);
      DigitsFromBitLen(y / 0x80);
    }
  }

  lemma {:induction false} DigitsBound(x: nat, k: nat)
    requires 1 <= k && x < Pow128(k)
    ensures |Encode(x)| <= k
    decreases k
  {
    if x >= 0x80 {
      assert x / 0x80 < Pow128(k - 1);
      DigitsBound(x / 0x80, k - 1);
    }
  }

  /**
   `sovNft`: the encoded size of x as a varint, computed as the source does,
   from the bit length of `x | 1`. It is the length of the reference encoding,
   at least 1 (for 0) and at most 10 for a 64-bit value.
   */
  function Sov(x: nat): (n: nat)
    ensures n == |Encode(x)|
    ensures 1 <= n
    ensures x < Two64 ==> n <= 10
  {
    SovIsDigitCount(x);
    (BitLen(Or1(x)) + 6) / 7
  }

  lemma SovIsDigitCount(x: nat)
    ensures (BitLen(Or1(x)) + 6) / 7 == |Encode(x)|
    ensures x < Two64 ==> |Encode(x)| <= 10
  {
    DigitsFromBitLen(Or1(x));
    if x >= 0x80 {
      assert Or1(x) / 0x80 == x / 0x80;
      assert Encode(Or1(x)) == [Or1(x) % 0x80 + 0x80] + Encode(x / 0x80);
    }
    if x < Two64 {
      assert Pow128(10) == 0x40_0000_0000_0000_0000;
      DigitsBound(x, 10);
    }
  }

  /** The signed reading of a 64-bit pattern, as Go's `int64(x)`. */
  function Int64(x: uint64): (s: int)
    ensures -Two64 / 2 <= s < Two64 / 2
    ensures s >= 0 ==> s == x
    ensures (s - x) % Two64 == 0
  {
    if x < Two64 / 2 then x else x - Two64
  }

  /** Zig-zag mapping of a signed value onto the naturals: 0, -1, 1, -2, ... to 0, 1, 2, 3, ... */
  function ZigZag(s: int): nat {
    if s >= 0 then 2 * s else -2 * s - 1
  }

  /**
   `sozNft`: `sovNft(uint64((x << 1) ^ uint64(int64(x) >> 63)))`, with the
   shift truncated to 64 bits and the arithmetic shift giving all ones for a
   negative `int64(x)`. It is the varint size of the zig-zag image of the
   signed reading of x.
   */
  function Soz(x: uint64): (n: nat)
    ensures n == Sov(ZigZag(Int64(x)))
    ensures 1 <= n <= 10
  {
    // the left shift drops the top bit
    var shifted := if x < Two64 / 2 then 2 * x else 2 * x - Two64;
    var signMask := if x < Two64 / 2 then 0 else Two64 - 1;
    // XOR with all zero or all one bits
    var z := if signMask == 0 then shifted else signMask - shifted;
    Sov(z)
  }

  /**
   `encodeVarintNft`: writes the varint of v into the buffer so that it ends
   just before `offset`, and returns where it starts. The buffer must have
   room for it, as every caller in the source ensures by sizing it first.
   */
  method EncodeInto(buf: seq<byte>, offset: int, v: uint64) returns (out: seq<byte>, base: int)
    requires Sov(v) <= offset <= |buf|
    ensures base == offset - Sov(v)
    ensures out == buf[..base] + Encode(v) + buf[offset..]
  {
    var o := offset - Sov(v);
    base := o;
    out := buf;
    var x: nat := v;
    ghost var e := Encode(v);
    assert out == buf[..base] + e[..0] + buf[o..];
    while x >= 0x80
      invariant base <= o && o + |Encode(x)| == offset && base + |e| == offset
      invariant Encode(x) == e[o - base..]
      invariant out == buf[..base] + e[..o - base] + buf[o..]
      decreases x
    {
      // v&0x7f | 0x80
      var d: byte := x % 0x80 + 0x80;
      WriteDigit(buf, base, o, offset, e, out, x, d);
      out := out[o := d];
      x := x / 0x80;
      o := o + 1;
    }
    WriteLast(buf, base, o, offset, e, out, x);
    out := out[o := x];
  }

  /** One turn of the write loop keeps its invariant. */
  lemma WriteDigit(buf: seq<byte>, base: int, o: int, offset: int, e: seq<byte>, out: seq<byte>, x: nat, d: byte)
    requires x >= 0x80 && d == x % 0x80 + 0x80
    requires 0 <= base <= o && o + |Encode(x)| == offset <= |buf| && base + |e| == offset
    requires Encode(x) == e[o - base..] && out == buf[..base] + e[..o - base] + buf[o..]
    ensures o + 1 + |Encode(x / 0x80)| == offset && Encode(x / 0x80) == e[o + 1 - base..]
    ensures out[o := d] == buf[..base] + e[..o + 1 - base] + buf[o + 1..]
  {
    DigitStep(x, e, o - base);
    WriteStep(buf, base, o, e, out, d);
  }

  /** The last byte completes the encoding. */
  lemma WriteLast(buf: seq<byte>, base: int, o: int, offset: int, e: seq<byte>, out: seq<byte>, x: nat)
    requires x < 0x80
    requires 0 <= base <= o && o + |Encode(x)| == offset <= |buf| && base + |e| == offset
    requires Encode(x) == e[o - base..] && out == buf[..base] + e[..o - base] + buf[o..]
    ensures out[o := x] == buf[..base] + e + buf[offset..]
  {
    LastDigit(x, e, o - base);
    WriteStep(buf, base, o, e, out, x);
  }

  lemma DigitStep(x: nat, e: seq<byte>, j: nat)
    requires x >= 0x80 && j <= |e| && Encode(x) == e[j..]
    ensures j < |e| && e[j] == x % 0x80 + 0x80 && Encode(x / 0x80) == e[j + 1..]
  {
    assert Encode(x) == [x % 0x80 + 0x80] + Encode(x / 0x80);
    assert e[j..][0] == e[j];
    assert e[j..][1..] == e[j + 1..];
  }

  lemma LastDigit(x: nat, e: seq<byte>, j: nat)
    requires x < 0x80 && j <= |e| && Encode(x) == e[j..]
    ensures j + 1 == |e| && e[j] == x && e[..j + 1] == e
  {
    assert e[j..][0] == e[j];
  }

  /** Writing the next byte of e at o extends the written part by one. */
  lemma WriteStep(buf: seq<byte>, base: int, o: int, e: seq<byte>, out: seq<byte>, d: byte)
    requires 0 <= base <= o < |buf| && o - base < |e| && d == e[o - base]
    requires out == buf[..base] + e[..o - base] + buf[o..]
    ensures out[o := d] == buf[..base] + e[..o + 1 - base] + buf[o + 1..]
  {
    var lhs := out[o := d];
    var rhs := buf[..base] + e[..o + 1 - base] + buf[o + 1..];
    assert |lhs| == |rhs|;
    forall k | 0 <= k < |lhs| ensures lhs[k] == rhs[k] {
      if k < base {
      } else if k < o {
      } else if k == o {
      } else {
      }
    }
  }

  /**
   One run of the decode loop from index `start`, having consumed `n` bytes
   (so `shift` is 7n). Each byte contributes its low seven bits at `shift`;
   the groups occupy disjoint bits, so ORing them in is the same as the sum
   g0 + 128 * (g1 + 128 * (...)) built here from the remaining bytes, and
   `Read` keeps that sum modulo 2^64 as the 64-bit register does. A shift of
   64 or more is an overflow; running off the end is an unexpected EOF.
   */
  function ReadFrom(data: seq<byte>, start: nat, n: nat): (r: Result<(nat, nat), WireError>)
    requires n <= 10
    ensures r.Success? ==> start + n < r.value.1 <= start + 10 && r.value.1 <= |data|
    ensures r.Failure? ==> r.error == UnexpectedEOF || r.error == IntOverflow
    decreases 10 - n
  {
    if 7 * n >= 64 then Failure(IntOverflow)
    else if start + n >= |data| then Failure(UnexpectedEOF)
    else
      var b := data[start + n];
      if b < 0x80 then Success((b, start + n + 1))
      else
        match ReadFrom(data, start, n + 1)
        case Success((rest, next)) => Success((b % 0x80 + 0x80 * rest, next))
        case Failure(e) => Failure(e)
  }

  /** The varint at index i of data, as a 64-bit value, and the index just past it. */
  function Read(data: seq<byte>, i: nat): (r: Result<(uint64, nat), WireError>)
    ensures r.Success? ==> i < r.value.1 <= i + 10 && r.value.1 <= |data|
    ensures r.Failure? ==> r.error == UnexpectedEOF || r.error == IntOverflow
  {
    match ReadFrom(data, i, 0)
    case Success((sum, next)) => Success((sum % Two64, next))
    case Failure(e) => Failure(e)
  }

  /** Which bytes a run of the loop that has consumed n bytes looks at, and what they decide. */
  lemma {:induction false} ReadFromOutcome(data: seq<byte>, start: nat, n: nat)
    requires n <= 10
    requires n == 0 || start + n <= |data|
    ensures var r := ReadFrom(data, start, n);
            && (r.Success? ==> data[r.value.1 - 1] < 0x80 && forall p | start + n <= p < r.value.1 - 1 :: data[p] >= 0x80)
            && (r == Failure(UnexpectedEOF) <==> |data| < start + 10 && forall p | start + n <= p < |data| :: data[p] >= 0x80)
            && (r == Failure(IntOverflow) <==> start + 10 <= |data| && forall p | start + n <= p < start + 10 :: data[p] >= 0x80)
    decreases 10 - n
  {
    if 7 * n < 64 && start + n < |data| && data[start + n] >= 0x80 {
      ReadFromOutcome(data, start, n + 1);
    }
  }

  /**
   The decode loop stops at the first byte below 0x80 within ten bytes; it
   reports an unexpected EOF exactly when the data ends before such a byte
   within ten bytes, and an overflow exactly when ten bytes with bit 0x80 set
   come first.
   */
  lemma ReadOutcome(data: seq<byte>, i: nat)
    ensures var r := Read(data, i);
            && (r.Success? ==> data[r.value.1 - 1] < 0x80 && forall p | i <= p < r.value.1 - 1 :: data[p] >= 0x80)
            && (r == Failure(UnexpectedEOF) <==> |data| < i + 10 && forall p | i <= p < |data| :: data[p] >= 0x80)
            && (r == Failure(IntOverflow) <==> i + 10 <= |data| && forall p | i <= p < i + 10 :: data[p] >= 0x80)
  {
    ReadFromOutcome(data, i, 0);
  }

  /**
   A run of the decode loop that has consumed n bytes and meets the
   encoding of v ending at e reads back v and stops at e.
   */
  lemma {:induction false} ReadFromEncoding(data: seq<byte>, start: nat, n: nat, v: nat, e: nat)
    requires n + |Encode(v)| <= 10
    requires e == start + n + |Encode(v)| && e <= |data|
    requires data[start + n..e] == Encode(v)
    ensures ReadFrom(data, start, n) == Success((v, e))
    decreases v
  {
    var j := start + n;
    var w := Encode(v);
    assert data[j] == w[0] by {
      assert data[j..e][0] == data[j];
    }
    if v >= 0x80 {
      var b := v % 0x80 + 0x80;
      var rest := Encode(v / 0x80);
      assert w == [b] + rest;
      var k := j + 1;
      Tail(data, j, w, [b], rest, k, e);
      ReadFromEncoding(data, start, n + 1, v / 0x80, e);
      assert b % 0x80 + 0x80 * (v / 0x80) == v;
    }
  }

  lemma ModBelow(x: int, m: int)
    requires 0 <= x < m
    ensures x % m == x
  {
  }

  /** The decode loop reads back exactly what the writer wrote: value and length. */
  lemma ReadEncoding(data: seq<byte>, i: nat, v: uint64)
    requires i + |Encode(v)| <= |data|
    requires data[i..i + |Encode(v)|] == Encode(v)
    ensures Read(data, i) == Success((v, i + Sov(v)))
  {
    assert Sov(v) <= 10;
    var e := i + |Encode(v)|;
    ReadFromEncoding(data, i, 0, v, e);
    ModBelow(v, Two64);
  }
}
