/** The Polyjuice call arguments (`encodeArgs`/`decodeArgs`): a 52-byte header
    followed by the call data, written as `0x`-prefixed hex text.

      bytes  0..7   ff ff ff 50 4f 4c 59   ("\xff\xff\xffPOLY")
      byte   7      03 for contract creation, 00 for a call
      bytes  8..16  gas limit, u64 little-endian
      bytes 16..32  gas price, u128 little-endian
      bytes 32..48  value, u128 little-endian
      bytes 48..52  data length in bytes, u32 little-endian
      bytes 52..    call data */
module PolyArgs {
  import opened Results
  import opened JsText
  import opened Hex
  import opened LittleEndian
  import opened Normalize

  /** `"FFFFFF"` and `"POLY"`, rendered as hex. */
  const POLY_HEADER: string := "ffffff504f4c59"
  /** The bytes of "POLY", which is what `decodeArgs` turns back into text. */
  const POLY_BYTES: seq<Byte> := [0x50, 0x4f, 0x4c, 0x59]

  /** The three spellings of "no recipient" that mark a creation. */
  predicate IsCreationTarget(to: string)
  {
    to == DEFAULT_EMPTY_ETH_ADDRESS || to == "0x" || to == "0x0"
  }

  /** The call-kind byte, as two hex digits. */
  function KindDigits(to: string): string
  {
    if IsCreationTarget(to) then "03" else "00"
  }

  /** `BigInt(gasLimit!)`: an absent gas limit is `BigInt(undefined)`, a TypeError. */
  function GasLimitAmount(tx: EthTransaction): Result<nat>
  {
    if tx.gas.None? then Err(TypeError) else ParseBigInt(tx.gas.value)
  }

  /** `text === "0x" ? BigInt(0) : BigInt(text!)`, for the gas price and the value. */
  function U128Amount(text: Option<string>): Result<nat>
  {
    if text == Some("0x") then Ok(0)
    else if text.None? then Err(TypeError)
    else ParseBigInt(text.value)
  }

  /** `Buffer.from(data.slice(2), "hex").length`. */
  function DataByteLength(data: string): nat
  {
    |HexBytes(Drop(data, 2))|
  }

  predicate FitsU128(a: Result<nat>)
  {
    a.Ok? && a.value <= U128_MAX
  }

  /** The inputs `encodeArgs` accepts: a gas limit `BigInt` can parse, a gas
      price and a value that parse and fit in 128 bits, and call data whose
      byte length fits in 32 bits. */
  predicate Encodable(tx: EthTransaction)
  {
    && GasLimitAmount(tx).Ok?
    && FitsU128(U128Amount(tx.gasPrice))
    && FitsU128(U128Amount(Some(tx.value)))
    && DataByteLength(tx.data) < TWO_32
  }

  /** Fixed-width pieces laid end to end sit at their offsets. */
  lemma {:induction false} LayoutSlices(h: string, k: string, g: string, p: string, v: string, d: string, x: string)
    requires |h| == 14 && |k| == 2 && |g| == 16 && |p| == 32 && |v| == 32 && |d| == 8
    ensures var a := h + k + g + p + v + d + x;
      && |a| == 104 + |x|
      && a[0..14] == h && a[14..16] == k && a[16..32] == g && a[32..64] == p
      && a[64..96] == v && a[96..104] == d && a[104..] == x
  {
  }

  /** The argument text after its `0x`: the encoder outputs with their own
      `0x` dropped, placed after the header and the kind byte. */
  function Layout(kind: string, gasLimitLe: string, gasPriceLe: string, valueLe: string,
                  dataLengthLe: string, data: string): string
  {
    POLY_HEADER + kind + Drop(gasLimitLe, 2) + Drop(gasPriceLe, 2) + Drop(valueLe, 2)
      + Drop(dataLengthLe, 2) + Drop(data, 2)
  }

  /** A 128-bit field of the encoding: the amount's `BigInt`, then `UInt128ToLeBytes`. */
  function U128Field(amount: Result<nat>): (r: Result<string>)
    ensures r.Ok? <==> FitsU128(amount)
    ensures r.Ok? ==> r == UInt128ToLeBytes(amount.value)
  {
    var n :- amount;
    UInt128ToLeBytes(n)
  }

  /** `encodeArgs(tx)`: fails exactly when `BigInt` throws or an encoder is out
      of range; otherwise lays the fields out as in the module comment. A
      missing gas limit, or a missing gas price after a good gas limit, is
      `BigInt(undefined)`: a TypeError rather than a zero. */
  function EncodeArgs(tx: EthTransaction): (r: Result<string>)
    ensures tx.gas.None? ==> r == Err(TypeError)
    ensures GasLimitAmount(tx).Ok? && tx.gasPrice.None? ==> r == Err(TypeError)
    ensures r.Ok? <==> Encodable(tx)
  {
    var gasLimit :- GasLimitAmount(tx);
    var gasPriceLe :- U128Field(U128Amount(tx.gasPrice));
    var valueLe :- U128Field(U128Amount(Some(tx.value)));
    var dataLengthLe :- UInt32ToLeBytes(DataByteLength(tx.data));
    Ok("0x" + Layout(KindDigits(tx.to), UInt64ToLeBytes(gasLimit), gasPriceLe, valueLe, dataLengthLe, tx.data))
  }

  /** What `decodeArgs` returns: the header bytes (which it renders as UTF-8
      text), the kind byte and the four numbers as hex text, and the data. */
  datatype DecodedArgs = DecodedArgs(
    header: seq<Byte>,
    kind: string,
    gasLimit: string,
    gasPrice: string,
    value: string,
    dataLength: string,
    data: string)

  /** `decodeArgs(args)` with the 128-bit reader it calls. `readU128` is
      `LeBytesToUInt128` for the code as written. */
  function DecodeWith(args: string, readU128: string -> Result<nat>): (r: Result<DecodedArgs>)
    ensures |args| < 106 ==> r.Err?
    ensures r.Ok? ==> r.value.data == "0x" + Drop(args, 106)
    ensures r.Ok? ==> ParseBigInt(r.value.gasLimit).Ok? && ParseBigInt(r.value.gasLimit).value < TWO_64
    ensures r.Ok? ==> ParseBigInt(r.value.dataLength).Ok? && ParseBigInt(r.value.dataLength).value < TWO_32
  {
    var a := Drop(args, 2);
    assert |args| >= 106 ==> Drop(a, 104) == Drop(args, 106);
    assert |args| < 106 ==> |Drop("0x" + Slice(a, 96, 104), 2)| < 8;
    var header := HexBytes(Drop("0x" + Slice(a, 0, 14), 8));
    var gasLimit :- LeBytesToUInt64("0x" + Slice(a, 16, 32));
    var gasPrice :- readU128("0x" + Slice(a, 32, 64));
    var value :- readU128("0x" + Slice(a, 64, 96));
    var dataLength :- LeBytesToUInt32("0x" + Slice(a, 96, 104));
    ParseBigIntOfHexDigits(gasLimit);
    ParseBigIntOfHexDigits(dataLength);
    Ok(DecodedArgs(header, "0x" + Slice(a, 14, 16), "0x" + HexDigits(gasLimit),
      "0x" + HexDigits(gasPrice), "0x" + HexDigits(value), "0x" + HexDigits(dataLength),
      "0x" + Drop(a, 104)))
  }

  /** `decodeArgs(args)` as written. */
  function DecodeArgs(args: string): (r: Result<DecodedArgs>)
    ensures |args| < 106 ==> r.Err?
    ensures r.Ok? ==> r.value.data == "0x" + Drop(args, 106)
    ensures r.Ok? ==> ParseBigInt(r.value.gasLimit).Ok? && ParseBigInt(r.value.gasLimit).value < TWO_64
    ensures r.Ok? ==> ParseBigInt(r.value.gasPrice).Ok? && ParseBigInt(r.value.gasPrice).value < TWO_64
    ensures r.Ok? ==> ParseBigInt(r.value.value).Ok? && ParseBigInt(r.value.value).value < TWO_64
  {
    var r := DecodeWith(args, LeBytesToUInt128);
    if r.Ok? then
      var a := Drop(args, 2);
      var price := LeBytesToUInt128("0x" + Slice(a, 32, 64)).value;
      var value := LeBytesToUInt128("0x" + Slice(a, 64, 96)).value;
      ParseBigIntOfHexDigits(price);
      ParseBigIntOfHexDigits(value);
      r
    else r
  }

  /** `decodeArgs` with the 128-bit reader corrected to read both halves. */
  function DecodeArgsFull(args: string): Result<DecodedArgs>
  {
    DecodeWith(args, LeBytesToUInt128Full)
  }

  /** The pieces of an encoding sit at the offsets `decodeArgs` slices. */
  lemma {:induction false} EncodedPieces(tx: EthTransaction)
    requires Encodable(tx)
    ensures var s := EncodeArgs(tx).value;
      && |s| == 106 + |Drop(tx.data, 2)|
      && s[..2] == "0x"
      && var a := Drop(s, 2);
      && Slice(a, 0, 14) == POLY_HEADER
      && Slice(a, 14, 16) == KindDigits(tx.to)
      && "0x" + Slice(a, 16, 32) == UInt64ToLeBytes(GasLimitAmount(tx).value)
      && "0x" + Slice(a, 32, 64) == UInt128ToLeBytes(U128Amount(tx.gasPrice).value).value
      && "0x" + Slice(a, 64, 96) == UInt128ToLeBytes(U128Amount(Some(tx.value)).value).value
      && "0x" + Slice(a, 96, 104) == UInt32ToLeBytes(DataByteLength(tx.data)).value
      && Drop(a, 104) == Drop(tx.data, 2)
  {
    var g := UInt64ToLeBytes(GasLimitAmount(tx).value);
    var p := UInt128ToLeBytes(U128Amount(tx.gasPrice).value).value;
    var v := UInt128ToLeBytes(U128Amount(Some(tx.value)).value).value;
    var d := UInt32ToLeBytes(DataByteLength(tx.data)).value;
    var a := Layout(KindDigits(tx.to), g, p, v, d, tx.data);
    assert EncodeArgs(tx).value == "0x" + a;
    assert Drop("0x" + a, 2) == a;
    LayoutSlices(POLY_HEADER, KindDigits(tx.to), g[2..], p[2..], v[2..], d[2..], Drop(tx.data, 2));
    assert g == "0x" + g[2..] && p == "0x" + p[2..] && v == "0x" + v[2..] && d == "0x" + d[2..];
  }

  lemma {:induction false} PrefixedSlices(a: string)
    requires |a| >= 104
    ensures ("0x" + a)[..16] == "0x" + a[..14]
    ensures ("0x" + a)[16..18] == a[14..16]
    ensures ("0x" + a)[106..] == a[104..]
  {
    var s := "0x" + a;
    assert forall i | 0 <= i < |a| - 104 :: s[106..][i] == s[106 + i] == a[104 + i] == a[104..][i];
  }

  /** The layout of an encoding: `0x`, the header, the kind byte (03 exactly
      for a creation target, 00 otherwise), and the call data after the 52
      fixed bytes. */
  lemma {:induction false} EncodeArgsLayout(tx: EthTransaction)
    requires Encodable(tx)
    ensures var s := EncodeArgs(tx).value;
      && |s| == 106 + |Drop(tx.data, 2)|
      && s[..16] == "0x" + POLY_HEADER
      && s[16..18] == KindDigits(tx.to)
      && (s[16..18] == "03" <==> IsCreationTarget(tx.to))
      && (s[16..18] == "03" || s[16..18] == "00")
      && s[106..] == Drop(tx.data, 2)
  {
    EncodedPieces(tx);
    var s := EncodeArgs(tx).value;
    var a := Drop(s, 2);
    assert s == "0x" + a;
    PrefixedSlices(a);
  }

  /** The header slice decodes to the bytes of "POLY". */
  lemma {:induction false} HeaderBytes()
    ensures HexBytes(Drop("0x" + POLY_HEADER, 8)) == POLY_BYTES
  {
    assert Drop("0x" + POLY_HEADER, 8) == "504f4c59";
    assert HexBytes("59") == [0x59] by {
      assert "59"[2..] == "";
    }
    assert HexBytes("4c59") == [0x4c, 0x59] by {
      assert "4c59"[2..] == "59";
    }
    assert HexBytes("4f4c59") == [0x4f, 0x4c, 0x59] by {
      assert "4f4c59"[2..] == "4c59";
    }
    assert "504f4c59"[2..] == "4f4c59";
  }

  /** What decoding the encoding of `tx` gives back: the numbers are taken
      from the encoders' inputs, with the 128-bit ones either whole
      (`fullU128`) or cut to their high 64 bits. */
  function Recovered(tx: EthTransaction, fullU128: bool): DecodedArgs
    requires Encodable(tx)
  {
    var price := U128Amount(tx.gasPrice).value;
    var value := U128Amount(Some(tx.value)).value;
    DecodedArgs(
      POLY_BYTES,
      "0x" + KindDigits(tx.to),
      "0x" + HexDigits(GasLimitAmount(tx).value % TWO_64),
      "0x" + HexDigits(if fullU128 then price else price / TWO_64),
      "0x" + HexDigits(if fullU128 then value else value / TWO_64),
      "0x" + HexDigits(DataByteLength(tx.data)),
      "0x" + Drop(tx.data, 2))
  }

  /** Decoding an encoding as written: the header is "POLY", the kind byte,
      the data and its length come back exactly, the gas limit modulo 2^64,
      and the gas price and value as their high 64 bits only. */
  lemma {:induction false} DecodeEncodedArgs(tx: EthTransaction)
    requires Encodable(tx)
    ensures DecodeArgs(EncodeArgs(tx).value) == Ok(Recovered(tx, false))
  {
    EncodedPieces(tx);
    HeaderBytes();
    UInt128RoundTripAsWritten(U128Amount(tx.gasPrice).value);
    UInt128RoundTripAsWritten(U128Amount(Some(tx.value)).value);
  }

  /** With the corrected reader the round trip keeps the gas price and value. */
  lemma {:induction false} DecodeFullEncodedArgs(tx: EthTransaction)
    requires Encodable(tx)
    ensures DecodeArgsFull(EncodeArgs(tx).value) == Ok(Recovered(tx, true))
  {
    EncodedPieces(tx);
    HeaderBytes();
    UInt128RoundTrip(U128Amount(tx.gasPrice).value);
    UInt128RoundTrip(U128Amount(Some(tx.value)).value);
  }

  /** A transaction with one wei of gas price and nothing else to say. */
  function OneWeiPrice(): EthTransaction
  {
    EthTransaction("0x", "0x", Some("0x1"), Some("0x1"), "0x", "0x")
  }

  lemma {:induction false} OneWeiPriceEncodes()
    ensures GasLimitAmount(OneWeiPrice()) == Ok(1)
    ensures U128Amount(OneWeiPrice().gasPrice) == Ok(1)
    ensures EncodeArgs(OneWeiPrice()).Ok?
  {
    var tx := OneWeiPrice();
    assert ParseBigInt("0x1") == Ok(1) by {
      assert "0x1"[2..] == "1";
      assert "1"[..0] == "";
    }
    assert U128Amount(Some(tx.value)) == Ok(0);
    assert DataByteLength(tx.data) == 0 by {
      assert Drop(tx.data, 2) == "";
    }
  }

  lemma {:induction false} LowPriceRecoveredAsZero(tx: EthTransaction)
    requires Encodable(tx)
    requires U128Amount(tx.gasPrice).value < TWO_64
    ensures Recovered(tx, false).gasPrice == "0x0"
  {
    var price := U128Amount(tx.gasPrice).value;
    assert price / TWO_64 == 0;
    assert HexDigits(0) == "0";
  }

  /** Any gas price below 2^64 (one wei, say, as `OneWeiPriceEncodes`
      shows is encodable) is read back by `decodeArgs` as zero. */
  lemma {:induction false} DecodeArgsDropsLowGasPrice(tx: EthTransaction)
    requires Encodable(tx)
    requires U128Amount(tx.gasPrice).value < TWO_64
    ensures DecodeArgs(EncodeArgs(tx).value).Ok?
    ensures DecodeArgs(EncodeArgs(tx).value).value.gasPrice == "0x0"
  {
    DecodeEncodedArgs(tx);
    LowPriceRecoveredAsZero(tx);
  }
}
