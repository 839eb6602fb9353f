/** Fixed-width unsigned integers as QDataStream writes them in its default
    (big-endian) byte order, plus the small wrapper types the rest of the
    model uses. */
module DataStream {

  type byte = x: int | 0 <= x < 0x100
  type u8 = x: int | 0 <= x < 0x100
  type u16 = x: int | 0 <= x < 0x1_0000
  type u32 = x: int | 0 <= x < 0x1_0000_0000
  type u64 = x: int | 0 <= x < 0x1_0000_0000_0000_0000
  /** A C++ int: an expected client count, a thread count. */
  type i32 = x: int | -0x8000_0000 <= x < 0x8000_0000

  /** A C++ `double` as it travels: the 64-bit pattern of an IEEE-754 binary64
      value. QDataStream writes it as 8 bytes in stream byte order. */
  type Double = u64

  /** The numeric reading of a bit pattern and the rounding of an exact real
      to the nearest double. Both are library code outside this model, so the
      classes that convert between the wire and arithmetic receive them. */
  datatype Ieee754 = Ieee754(toReal: Double -> real, fromReal: real -> Double)

  datatype Option<T> = None | Some(value: T)

  datatype Result<T, E> = Ok(value: T) | Err(error: E)

  function Pow256(k: nat): (p: nat)
    ensures p >= 1
  {
    if k == 0 then 1 else 256 * Pow256(k - 1)
  }

  lemma Pow256Widths()
    ensures Pow256(1) == 0x100 && Pow256(2) == 0x1_0000
    ensures Pow256(4) == 0x1_0000_0000 && Pow256(8) == 0x1_0000_0000_0000_0000
  {
  }

  lemma DivBelow(x: nat, p: nat)
    requires x < 256 * p
    ensures x / 256 < p
  {
  }

  lemma MulBelow(d: nat, last: nat, p: nat)
    requires d < p && last < 256
    ensures d * 256 + last < 256 * p
  {
    assert d <= p - 1;
    assert d * 256 <= (p - 1) * 256;
  }

  /** The k-byte big-endian form of x, most significant byte first. */
  function EncodeBE(x: nat, k: nat): (s: seq<byte>)
    requires x < Pow256(k)
    ensures |s| == k
  {
    if k == 0 then []
    else
      DivBelow(x, Pow256(k - 1));
      EncodeBE(x / 256, k - 1) + [x % 256]
  }

  /** The number a big-endian byte string stands for. */
  function DecodeBE(s: seq<byte>): (x: nat)
    ensures x < Pow256(|s|)
  {
    if s == [] then 0
    else
      var d := DecodeBE(s[..|s| - 1]);
      MulBelow(d, s[|s| - 1], Pow256(|s| - 1));
      d * 256 + s[|s| - 1]
  }

  lemma {:induction false} DecodeEncode(x: nat, k: nat)
    requires x < Pow256(k)
    ensures DecodeBE(EncodeBE(x, k)) == x
  {
    if k > 0 {
      DivBelow(x, Pow256(k - 1));
      var s := EncodeBE(x, k);
      assert s[..|s| - 1] == EncodeBE(x / 256, k - 1);
      DecodeEncode(x / 256, k - 1);
    }
  }

  lemma {:induction false} EncodeDecode(s: seq<byte>)
    ensures EncodeBE(DecodeBE(s), |s|) == s
  {
    if s != [] {
      var init, last := s[..|s| - 1], s[|s| - 1];
      var d := DecodeBE(init);
      assert DecodeBE(s) == d * 256 + last;
      assert (d * 256 + last) / 256 == d;
      assert (d * 256 + last) % 256 == last;
      EncodeDecode(init);
      assert s == init + [last];
    }
  }

  /** QDataStream's read of a k-byte field: fails (status ReadPastEnd) when
      fewer than k bytes remain, else yields the value and what follows. */
  function Read(s: seq<byte>, k: nat): (r: Option<(nat, seq<byte>)>)
    ensures r.None? <==> |s| < k
    ensures r.Some? ==> r.value.0 < Pow256(k) && r.value.1 == s[k..]
  {
    if |s| < k then None else Some((DecodeBE(s[..k]), s[k..]))
  }

  lemma ReadAfterEncode(x: nat, k: nat, t: seq<byte>)
    requires x < Pow256(k)
    ensures Read(EncodeBE(x, k) + t, k) == Some((x, t))
  {
    var s := EncodeBE(x, k) + t;
    assert s[..k] == EncodeBE(x, k);
    assert s[k..] == t;
    DecodeEncode(x, k);
  }

  lemma EncodeAfterRead(s: seq<byte>, k: nat)
    requires |s| >= k
    ensures EncodeBE(Read(s, k).value.0, k) + Read(s, k).value.1 == s
  {
    EncodeDecode(s[..k]);
    assert s[..k] + s[k..] == s;
  }

  // Typed writers and readers for the widths the protocol uses.

  function WriteU8(x: u8): seq<byte> { Pow256Widths(); EncodeBE(x, 1) }
  function WriteU16(x: u16): seq<byte> { Pow256Widths(); EncodeBE(x, 2) }
  function WriteU32(x: u32): seq<byte> { Pow256Widths(); EncodeBE(x, 4) }
  function WriteDouble(x: Double): seq<byte> { Pow256Widths(); EncodeBE(x, 8) }

  function ReadU8(s: seq<byte>): Option<(u8, seq<byte>)>
  {
    Pow256Widths();
    match Read(s, 1)
    case None => None
    case Some((x, rest)) => Some((x, rest))
  }

  function ReadU16(s: seq<byte>): Option<(u16, seq<byte>)>
  {
    Pow256Widths();
    match Read(s, 2)
    case None => None
    case Some((x, rest)) => Some((x, rest))
  }

  function ReadU32(s: seq<byte>): Option<(u32, seq<byte>)>
  {
    Pow256Widths();
    match Read(s, 4)
    case None => None
    case Some((x, rest)) => Some((x, rest))
  }

  function ReadDouble(s: seq<byte>): Option<(Double, seq<byte>)>
  {
    Pow256Widths();
    match Read(s, 8)
    case None => None
    case Some((x, rest)) => Some((x, rest))
  }

  lemma ReadWriteU8(x: u8, t: seq<byte>)
    ensures ReadU8(WriteU8(x) + t) == Some((x, t))
  {
    Pow256Widths();
    ReadAfterEncode(x, 1, t);
  }

  lemma ReadWriteU16(x: u16, t: seq<byte>)
    ensures ReadU16(WriteU16(x) + t) == Some((x, t))
  {
    Pow256Widths();
    ReadAfterEncode(x, 2, t);
  }

  lemma ReadWriteU32(x: u32, t: seq<byte>)
    ensures ReadU32(WriteU32(x) + t) == Some((x, t))
  {
    Pow256Widths();
    ReadAfterEncode(x, 4, t);
  }

  lemma ReadWriteDouble(x: Double, t: seq<byte>)
    ensures ReadDouble(WriteDouble(x) + t) == Some((x, t))
  {
    Pow256Widths();
    ReadAfterEncode(x, 8, t);
  }

  // The converse: a successful read consumed exactly the written form.

  lemma WriteReadU8(s: seq<byte>)
    requires ReadU8(s).Some?
    ensures WriteU8(ReadU8(s).value.0) + ReadU8(s).value.1 == s
  {
    Pow256Widths();
    EncodeAfterRead(s, 1);
  }

  lemma WriteReadU16(s: seq<byte>)
    requires ReadU16(s).Some?
    ensures WriteU16(ReadU16(s).value.0) + ReadU16(s).value.1 == s
  {
    Pow256Widths();
    EncodeAfterRead(s, 2);
  }

  lemma WriteReadU32(s: seq<byte>)
    requires ReadU32(s).Some?
    ensures WriteU32(ReadU32(s).value.0) + ReadU32(s).value.1 == s
  {
    Pow256Widths();
    EncodeAfterRead(s, 4);
  }

  lemma WriteReadDouble(s: seq<byte>)
    requires ReadDouble(s).Some?
    ensures WriteDouble(ReadDouble(s).value.0) + ReadDouble(s).value.1 == s
  {
    Pow256Widths();
    EncodeAfterRead(s, 8);
  }
}
