/** The little-endian integer helpers of util.ts: the patched 64-bit writer
    `writeBigUint64LE`, the encoders `UInt32/64/128ToLeBytes` (hex text out)
    and the decoders `LeBytesToUInt32/64/128` (hex text in). */
module LittleEndian {
  import opened Results
  import opened JsText
  import opened Hex

  const TWO_32: nat := 0x1_0000_0000
  const TWO_64: nat := 0x1_0000_0000_0000_0000
  const U128_MIN: int := 0
  const U128_MAX: int := 0x1_0000_0000_0000_0000_0000_0000_0000_0000 - 1

  function Pow256(k: nat): (r: nat)
    ensures r > 0
  {
    if k == 0 then 1 else 256 * Pow256(k - 1)
  }

  /** The `width` low bytes of `n`, least significant first (higher bytes are dropped). */
  function LeBytes(n: nat, width: nat): (r: seq<Byte>)
    ensures |r| == width
  {
    if width == 0 then [] else [n % 256] + LeBytes(n / 256, width - 1)
  }

  lemma {:induction false} Pow256Values()
    ensures Pow256(4) == TWO_32 && Pow256(8) == TWO_64 && Pow256(16) == U128_MAX + 1
  {
    assert Pow256(2) == 0x1_0000;
    assert Pow256(4) == 0x1_0000 * Pow256(2);
    assert Pow256(6) == 0x1_0000 * Pow256(4);
    assert Pow256(8) == 0x1_0000 * Pow256(6);
    assert Pow256(12) == TWO_32 * Pow256(8);
    assert Pow256(16) == TWO_32 * Pow256(12);
  }

  /** The number a little-endian byte string denotes. */
  function LeValue(b: seq<Byte>): nat
  {
    if b == [] then 0 else b[0] + 256 * LeValue(b[1..])
  }

  lemma {:induction false} LeValueBound(b: seq<Byte>)
    ensures LeValue(b) < Pow256(|b|)
  {
    if b != [] {
      LeValueBound(b[1..]);
    }
  }

  /** Encoding then decoding a value that fits is the identity. */
  lemma {:induction false} LeValueOfLeBytes(n: nat, width: nat)
    requires n < Pow256(width)
    ensures LeValue(LeBytes(n, width)) == n
  {
    if width > 0 {
      LeValueOfLeBytes(n / 256, width - 1);
    }
  }

  /** Decoding then encoding at the same width is the identity. */
  lemma {:induction false} LeBytesOfLeValue(b: seq<Byte>)
    ensures LeBytes(LeValue(b), |b|) == b
  {
    if b != [] {
      var v := LeValue(b);
      assert v % 256 == b[0] && v / 256 == LeValue(b[1..]);
      LeBytesOfLeValue(b[1..]);
    }
  }

  lemma {:induction false} LeValueAppend(a: seq<Byte>, c: seq<Byte>)
    ensures LeValue(a + c) == LeValue(a) + Pow256(|a|) * LeValue(c)
  {
    if a != [] {
      var t, x, y := a[1..], LeValue(a[1..]), LeValue(c);
      var p := Pow256(|t|);
      assert (a + c)[0] == a[0] && (a + c)[1..] == t + c;
      LeValueAppend(t, c);
      assert LeValue(a + c) == a[0] + 256 * (x + p * y);
      ShiftSum(x, p, y);
      assert Pow256(|a|) == 256 * p;
    } else {
      assert a + c == c;
    }
  }

  lemma {:induction false} ShiftSum(x: int, p: int, y: int)
    ensures 256 * (x + p * y) == 256 * x + (256 * p) * y
  {
  }

  lemma {:induction false} MulMonotone(a: nat, x: int, y: int)
    requires x <= y
    ensures a * x <= a * y
  {
  }

  /** Division is determined by any quotient/remainder decomposition. */
  lemma {:induction false} DivUnique(n: int, d: nat, q: int, r: int)
    requires d > 0 && 0 <= r < d && n == d * q + r
    ensures n / d == q
  {
    var q' := n / d;
    if q' < q {
      MulMonotone(d, q' + 1, q);
    } else if q' > q {
      MulMonotone(d, q + 1, q');
    }
  }

  lemma {:induction false} DivDiv(n: nat, a: nat, b: nat)
    requires a > 0 && b > 0
    ensures n / a / b == n / (a * b)
  {
    var q1, r1 := n / a, n % a;
    var q2, r2 := q1 / b, q1 % b;
    assert n == a * (b * q2 + r2) + r1;
    assert n == (a * b) * q2 + (a * r2 + r1);
    MulMonotone(a, r2, b - 1);
    DivUnique(n, a * b, q2, a * r2 + r1);
  }

  /** Byte `k` of the encoding is `(n >> 8k) mod 256`. */
  lemma {:induction false} LeBytesByte(n: nat, width: nat, k: nat)
    requires k < width
    ensures LeBytes(n, width)[k] == (n / Pow256(k)) % 256
  {
    if k > 0 {
      LeBytesByte(n / 256, width - 1, k - 1);
      DivDiv(n, 256, Pow256(k - 1));
    }
  }

  /** The 8 bytes of `v mod 2^64` are the 4 bytes of its low 32-bit word
      followed by the 4 bytes of its high word, as the writer lays them out. */
  lemma {:induction false} Mod64Split(v: nat)
    ensures v % TWO_64 == v % TWO_32 + TWO_32 * ((v / TWO_32) % TWO_32)
  {
    var lo, q := v % TWO_32, v / TWO_32;
    var hi := q % TWO_32;
    assert v == TWO_64 * (q / TWO_32) + (TWO_32 * hi + lo);
  }

  lemma {:induction false} LeBytes64Split(v: nat)
    ensures LeBytes(v % TWO_64, 8) == LeBytes(v % TWO_32, 4) + LeBytes((v / TWO_32) % TWO_32, 4)
  {
    var lo, hi := v % TWO_32, (v / TWO_32) % TWO_32;
    Mod64Split(v);
    var both := LeBytes(lo, 4) + LeBytes(hi, 4);
    LeValueAppend(LeBytes(lo, 4), LeBytes(hi, 4));
    Pow256Values();
    LeValueOfLeBytes(lo, 4);
    LeValueOfLeBytes(hi, 4);
    assert LeValue(both) == v % TWO_64;
    LeBytesOfLeValue(both);
  }

  /** Writes the four bytes of a 32-bit word the way the patched writer does:
      store the low byte, shift right by 8, repeat. Writes past the end of the
      buffer are ignored, as they are for a JavaScript typed array. */
  method WriteWord(buf: seq<Byte>, word: nat, offset: nat) returns (out: seq<Byte>, next: nat)
    ensures |out| == |buf| && next == offset + 4
    ensures forall k :: 0 <= k < 4 && offset + k < |buf| ==> out[offset + k] == LeBytes(word, 4)[k]
    ensures forall i :: 0 <= i < |buf| && !(offset <= i < offset + 4) ==> out[i] == buf[i]
  {
    out := buf;
    var w := word;
    var k := 0;
    while k < 4
      invariant 0 <= k <= 4
      invariant |out| == |buf|
      invariant LeBytes(word, 4)[k..] == LeBytes(w, 4 - k)
      invariant forall j :: 0 <= j < k && offset + j < |buf| ==> out[offset + j] == LeBytes(word, 4)[j]
      invariant forall i :: 0 <= i < |buf| && !(offset <= i < offset + k) ==> out[i] == buf[i]
    {
      if offset + k < |out| {
        out := out[offset + k := w % 256];
      }
      w := w / 256;
      k := k + 1;
    }
    next := offset + 4;
  }

  /** `writeBigUint64LE(buf, value, offset)` (util.ts): writes the low 32-bit
      word of `value`, then bits 32..63, least significant byte first, and
      returns the offset after them. Bits above 63 are silently dropped. */
  method WriteBigUint64LE(buf: seq<Byte>, value: nat, offset: nat) returns (out: seq<Byte>, next: nat)
    ensures |out| == |buf| && next == offset + 8
    ensures forall k :: 0 <= k < 8 && offset + k < |buf| ==> out[offset + k] == LeBytes(value % TWO_64, 8)[k]
    ensures forall i :: 0 <= i < |buf| && !(offset <= i < offset + 8) ==> out[i] == buf[i]
  {
    var lo := value % TWO_32;
    var mid;
    out, mid := WriteWord(buf, lo, offset);
    var hi := (value / TWO_32) % TWO_32;
    out, next := WriteWord(out, hi, mid);
    LeBytes64Split(value);
  }

  /** `UInt32ToLeBytes(num)`: `writeUInt32LE` throws a RangeError outside [0, 2^32). */
  function UInt32ToLeBytes(num: int): (r: Result<string>)
    ensures r.Ok? <==> 0 <= num < TWO_32
    ensures r.Ok? ==> |r.value| == 10 && r.value[..2] == "0x" && LeBytesToUInt32(r.value) == Ok(num)
  {
    if 0 <= num < TWO_32 then
      var b := LeBytes(num, 4);
      assert LeValue(b) == num by {
        Pow256Values();
        LeValueOfLeBytes(num, 4);
      }
      assert HexBytes(BytesToHex(b)) == b by {
        HexBytesOfBytesToHex(b, []);
        assert BytesToHex(b) + [] == BytesToHex(b);
      }
      assert Drop("0x" + BytesToHex(b), 2) == BytesToHex(b);
      assert b[..4] == b;
      Ok("0x" + BytesToHex(b))
    else Err(RangeError)
  }

  /** `UInt64ToLeBytes(num)`: eight bytes of `num mod 2^64` through the patched writer. */
  function UInt64ToLeBytes(num: nat): (r: string)
    ensures |r| == 18 && r[..2] == "0x"
    ensures LeBytesToUInt64(r) == Ok(num % TWO_64)
  {
    var b := LeBytes(num % TWO_64, 8);
    assert LeValue(b) == num % TWO_64 by {
      Pow256Values();
      LeValueOfLeBytes(num % TWO_64, 8);
    }
    assert HexBytes(BytesToHex(b)) == b by {
      HexBytesOfBytesToHex(b, []);
      assert BytesToHex(b) + [] == BytesToHex(b);
    }
    assert Drop("0x" + BytesToHex(b), 2) == BytesToHex(b);
    assert b[..8] == b;
    "0x" + BytesToHex(b)
  }

  /** The 16 bytes `UInt128ToLeBytes` writes for an in-range value: the low
      64 bits at offset 0, then the high 64 bits at offset 8. */
  function U128Bytes(u128: nat): seq<Byte>
  {
    LeBytes(u128 % TWO_64, 8) + LeBytes(u128 / TWO_64, 8)
  }

  /** The two halves together denote the whole value. */
  lemma {:induction false} U128BytesValue(u128: nat)
    requires u128 <= U128_MAX
    ensures |U128Bytes(u128)| == 16
    ensures LeValue(U128Bytes(u128)) == u128
    ensures LeValue(U128Bytes(u128)[8..]) == u128 / TWO_64
  {
    var lo, hi := LeBytes(u128 % TWO_64, 8), LeBytes(u128 / TWO_64, 8);
    assert U128Bytes(u128)[8..] == hi;
    Pow256Values();
    LeValueAppend(lo, hi);
    LeValueOfLeBytes(u128 % TWO_64, 8);
    LeValueOfLeBytes(u128 / TWO_64, 8);
  }

  /** `UInt64ToLeBytes(num)` as the source runs it: `writeBigUInt64LE`
      into a zeroed 8-byte buffer at offset 0, then the buffer as hex text. */
  method UInt64ToLeBytesByWriter(num: nat) returns (r: string)
    ensures r == UInt64ToLeBytes(num)
  {
    var buf: seq<Byte> := seq(8, _ => 0);
    var next;
    buf, next := WriteBigUint64LE(buf, num, 0);
    assert buf == LeBytes(num % TWO_64, 8);
    r := "0x" + BytesToHex(buf);
  }

  /** `UInt128ToLeBytes(u128)` as the source runs it: after the range
      checks, the low 64 bits are written at offset 0 and the high 64 bits at
      offset 8 of a zeroed 16-byte buffer. */
  method UInt128ToLeBytesByWriter(u128: int) returns (r: Result<string>)
    ensures r == UInt128ToLeBytes(u128)
  {
    if u128 < U128_MIN {
      return Err(U128TooSmall);
    }
    if u128 > U128_MAX {
      return Err(U128TooLarge);
    }
    var lo := u128 % TWO_64;
    var hi := u128 / TWO_64;
    assert hi < TWO_64;
    assert lo % TWO_64 == lo && hi % TWO_64 == hi;
    var buf: seq<Byte> := seq(16, _ => 0);
    var next;
    buf, next := WriteBigUint64LE(buf, lo, 0);
    ghost var first := buf;
    assert first[..8] == LeBytes(lo, 8);
    buf, next := WriteBigUint64LE(buf, hi, next);
    assert buf[..8] == first[..8];
    assert buf[8..] == LeBytes(hi, 8);
    assert buf == U128Bytes(u128) by {
      assert buf == buf[..8] + buf[8..];
    }
    r := Ok("0x" + BytesToHex(buf));
  }

  /** `UInt128ToLeBytes(u128)`: range-checked against `U128_MIN`/`U128_MAX`. */
  function UInt128ToLeBytes(u128: int): (r: Result<string>)
    ensures u128 < U128_MIN ==> r == Err(U128TooSmall)
    ensures u128 > U128_MAX ==> r == Err(U128TooLarge)
    ensures r.Ok? <==> U128_MIN <= u128 <= U128_MAX
    ensures r.Ok? ==> |r.value| == 34 && r.value[..2] == "0x"
    ensures r.Ok? ==> HexBytes(r.value[2..]) == U128Bytes(u128) && LeValue(U128Bytes(u128)) == u128
  {
    if u128 < U128_MIN then Err(U128TooSmall)
    else if u128 > U128_MAX then Err(U128TooLarge)
    else
      var b := U128Bytes(u128);
      U128BytesValue(u128);
      assert HexBytes(BytesToHex(b)) == b by {
        HexBytesOfBytesToHex(b, []);
        assert BytesToHex(b) + [] == BytesToHex(b);
      }
      Ok("0x" + BytesToHex(b))
  }

  /** `LeBytesToUInt32(hex)`: `readUInt32LE()` of the decoded bytes. */
  function LeBytesToUInt32(hex: string): (r: Result<nat>)
    ensures r.Ok? <==> |HexBytes(Drop(hex, 2))| >= 4
    ensures r.Ok? ==> r.value < TWO_32
  {
    var buf := HexBytes(Drop(hex, 2));
    if |buf| < 4 then Err(RangeError)
    else
      LeValueBound(buf[..4]);
      Ok(LeValue(buf[..4]))
  }

  /** `LeBytesToUInt64(hex)`: `readBigUInt64LE()` of the decoded bytes. */
  function LeBytesToUInt64(hex: string): (r: Result<nat>)
    ensures r.Ok? <==> |HexBytes(Drop(hex, 2))| >= 8
    ensures r.Ok? ==> r.value < TWO_64
  {
    var buf := HexBytes(Drop(hex, 2));
    if |buf| < 8 then Err(RangeError)
    else
      LeValueBound(buf[..8]);
      Ok(LeValue(buf[..8]))
  }

  /** `LeBytesToUInt128(hex)` as written: it reads `buf.slice(8, 16)` only,
      i.e. the HIGH 64-bit half of a 16-byte encoding. */
  function LeBytesToUInt128(hex: string): (r: Result<nat>)
    ensures r.Ok? <==> |HexBytes(Drop(hex, 2))| >= 16
    ensures r.Ok? ==> r.value < TWO_64
  {
    var buf := Slice(HexBytes(Drop(hex, 2)), 8, 16);
    if |buf| < 8 then Err(RangeError)
    else
      LeValueBound(buf[..8]);
      Ok(LeValue(buf[..8]))
  }

  /** The corrected reader: both halves, low half first. */
  function LeBytesToUInt128Full(hex: string): (r: Result<nat>)
    ensures r.Ok? <==> |HexBytes(Drop(hex, 2))| >= 16
    ensures r.Ok? ==> r.value <= U128_MAX
  {
    var buf := HexBytes(Drop(hex, 2));
    if |buf| < 16 then Err(RangeError)
    else
      LeValueBound(buf[..16]);
      Pow256Values();
      Ok(LeValue(buf[..16]))
  }

  /** Round trip of the 128-bit encoder through the reader as written: only
      the high half comes back. */
  lemma {:induction false} UInt128RoundTripAsWritten(u128: int)
    requires U128_MIN <= u128 <= U128_MAX
    ensures LeBytesToUInt128(UInt128ToLeBytes(u128).value) == Ok(u128 / TWO_64)
  {
    var s := UInt128ToLeBytes(u128).value;
    U128BytesValue(u128);
    var b := U128Bytes(u128);
    assert Drop(s, 2) == s[2..];
    assert HexBytes(Drop(s, 2)) == b;
    assert Slice(b, 8, 16) == b[8..];
    assert b[8..][..8] == b[8..];
  }

  /** Every non-zero value below 2^64 (the value 1, say) shows the
      discrepancy: it encodes, and it is read back as 0. */
  lemma {:induction false} UInt128LowHalfLost(u128: int)
    requires 0 < u128 < TWO_64
    ensures UInt128ToLeBytes(u128).Ok?
    ensures LeBytesToUInt128(UInt128ToLeBytes(u128).value) == Ok(0)
    ensures LeBytesToUInt128(UInt128ToLeBytes(u128).value) != Ok(u128)
  {
    assert U128_MIN <= u128 <= U128_MAX;
    UInt128RoundTripAsWritten(u128);
    assert u128 / TWO_64 == 0;
  }

  /** Round trip of the 128-bit encoder through the corrected reader. */
  lemma {:induction false} UInt128RoundTrip(u128: int)
    requires U128_MIN <= u128 <= U128_MAX
    ensures LeBytesToUInt128Full(UInt128ToLeBytes(u128).value) == Ok(u128)
  {
    var s := UInt128ToLeBytes(u128).value;
    U128BytesValue(u128);
    assert Drop(s, 2) == s[2..];
    var b := U128Bytes(u128);
    assert b[..16] == b;
  }
}
