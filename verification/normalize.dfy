/** The hex and transaction normalisers of util.ts: `normalizeHexValue`,
    `formalizeEthToAddress`, `normalizeEthTransaction`, the CKB/ETH unit
    scaling `ethToCkb`/`ckbToEth`, and `Godwoker.packSignature`. */
module Normalize {
  import opened Results
  import opened JsText
  import opened Hex
  import opened LittleEndian

  /** The all-zero 20-byte address, the provider's "no recipient" value. */
  const DEFAULT_EMPTY_ETH_ADDRESS: string := "0x" + Repeat('0', 40)
  /** Fallback gas limit; constant.ts is not part of this model, so only its
      shape (a hex quantity) matters to the properties below. */
  const POLY_MAX_TRANSACTION_GAS_LIMIT: string := "0xbebc20"
  /** Fallback gas price; a hex quantity, as above. */
  const POLY_MIN_GAS_PRICE: string := "0x0"

  /** The three JavaScript shapes a quantity can take: hex text, a `bigint`
      of either sign, or a (non-negative, integral) `number`. */
  datatype Quantity = HexText(text: string) | BigIntValue(big: int) | NumberValue(number: nat)

  /** JavaScript truthiness: "" and 0 are false. */
  predicate Truthy(q: Quantity)
  {
    match q
    case HexText(t) => t != ""
    case BigIntValue(n) => n != 0
    case NumberValue(n) => n != 0
  }

  /** `a || fallback` for an optional quantity. */
  function Or(a: Option<Quantity>, fallback: Quantity): Quantity
  {
    if a.Some? && Truthy(a.value) then a.value else fallback
  }

  /** `a || fallback` for optional text. */
  function OrText(a: Option<string>, fallback: string): string
  {
    if a.Some? && a.value != "" then a.value else fallback
  }

  /** The shape `normalizeHexValue` produces: `0x`, then an even number of
      lower-case hex digits. */
  predicate IsNormalHex(s: string)
  {
    |s| >= 2 && s[..2] == "0x" && |s| % 2 == 0 && AllLowerHexDigits(s[2..])
  }

  /** A quantity `normalizeHexValue` accepts. */
  predicate Acceptable(q: Quantity)
  {
    q.HexText? ==> IsHexString(q.text, 0)
  }

  /** A quantity that is not a negative `bigint`. */
  predicate Unsigned(q: Quantity)
  {
    q.BigIntValue? ==> q.big >= 0
  }

  /** The number an acceptable, unsigned quantity stands for. */
  function Amount(q: Quantity): nat
    requires Acceptable(q) && Unsigned(q)
  {
    match q
    case HexText(t) => HexValue(t[2..])
    case BigIntValue(n) => n
    case NumberValue(n) => n
  }

  /** `s` is normalised hex text for the same number as `q`. */
  predicate Denotes(s: string, q: Quantity)
  {
    IsNormalHex(s) && Acceptable(q) && Unsigned(q) && HexValue(s[2..]) == Amount(q)
  }

  /** What a negative `bigint` `n` becomes: `0x`, a zero when the digit count
      with its sign is odd, a minus sign, then the minimal lower-case digits of
      `-n`. The text is not hex. */
  predicate NegativeHex(s: string, n: int)
  {
    && n < 0 && |s| % 2 == 0
    && (s == "0x-" + HexDigits(-n) || s == "0x0-" + HexDigits(-n))
  }

  /** `s` is what `normalizeHexValue` makes of `q`: normal hex for the same
      number, or the signed rendering of a negative `bigint`. */
  predicate Renders(s: string, q: Quantity)
  {
    if q.BigIntValue? && q.big < 0 then NegativeHex(s, q.big) else Denotes(s, q)
  }

  function PadEven(digits: string): string
  {
    if |digits| % 2 == 1 then ['0'] + digits else digits
  }

  lemma {:induction false} PadEvenValue(digits: string)
    requires AllHexDigits(digits)
    ensures AllHexDigits(PadEven(digits)) && HexValue(PadEven(digits)) == HexValue(digits)
    ensures |PadEven(digits)| % 2 == 0
    ensures AllLowerHexDigits(digits) ==> AllLowerHexDigits(PadEven(digits))
  {
    if |digits| % 2 == 1 {
      HexValueLeadingZero(digits);
    }
  }

  /** `0x` followed by an even number of lower-case digits is normal. */
  lemma {:induction false} NormalHexOf(d: string)
    requires AllLowerHexDigits(d) && |d| % 2 == 0
    ensures IsNormalHex("0x" + d) && ("0x" + d)[2..] == d
  {
    var s := "0x" + d;
    assert s[..2] == "0x";
    assert s[2..] == d;
  }

  /** Lower-casing hex digits leaves lower-case hex digits. */
  lemma {:induction false} ToLowerHexDigits(d: string)
    requires AllHexDigits(d)
    ensures AllLowerHexDigits(ToLower(d))
  {
    forall i | 0 <= i < |d|
      ensures IsLowerHexDigit(ToLower(d)[i])
    {
      assert IsHexDigit(d[i]);
    }
  }

  /** The `bigint` branch: `toString(16)`, after "0x0" when it has an odd
      length (a minus sign included) and after "0x" otherwise. */
  function BigIntHex(n: int): (r: string)
    ensures n >= 0 ==> Denotes(r, BigIntValue(n))
    ensures n < 0 ==> NegativeHex(r, n)
    ensures n == 0 ==> r == "0x00"
  {
    BigIntHexRenders(n);
    var d := SignedHexDigits(n);
    if |d| % 2 == 1 then "0x0" + d else "0x" + d
  }

  lemma {:induction false} BigIntHexRenders(n: int)
    ensures var d := SignedHexDigits(n);
      var r := if |d| % 2 == 1 then "0x0" + d else "0x" + d;
      && (n >= 0 ==> Denotes(r, BigIntValue(n)))
      && (n < 0 ==> NegativeHex(r, n))
      && (n == 0 ==> r == "0x00")
  {
    if n >= 0 {
      UnsignedHexRenders(n);
    } else {
      NegativeHexRenders(-n);
    }
  }

  lemma {:induction false} UnsignedHexRenders(n: nat)
    ensures var d := HexDigits(n);
      var r := if |d| % 2 == 1 then "0x0" + d else "0x" + d;
      Denotes(r, BigIntValue(n)) && (n == 0 ==> r == "0x00")
  {
    var d := HexDigits(n);
    PadEvenValue(d);
    HexValueOfHexDigits(n);
    NormalHexOf(PadEven(d));
    if |d| % 2 == 1 {
      assert "0x0" + d == "0x" + PadEven(d);
    }
  }

  lemma {:induction false} NegativeHexRenders(k: nat)
    requires k > 0
    ensures var d := "-" + HexDigits(k);
      var r := if |d| % 2 == 1 then "0x0" + d else "0x" + d;
      NegativeHex(r, -(k as int))
  {
    var d := "-" + HexDigits(k);
    assert "0x0" + d == "0x0-" + HexDigits(k);
    assert "0x" + d == "0x-" + HexDigits(k);
  }

  /** The `number` branch, as the loop leaves it: no digits at all for zero,
      which is then returned as "0x00"; otherwise the digits with a zero
      prepended to an odd count. */
  function NumberHex(n: nat): (r: string)
    ensures Denotes(r, NumberValue(n))
  {
    var digits := if n == 0 then "" else HexDigits(n);
    if |digits| > 0 then
      PadEvenValue(digits);
      HexValueOfHexDigits(n);
      NormalHexOf(PadEven(digits));
      "0x" + PadEven(digits)
    else "0x00"
  }

  /** The text branch: accepted only when `isHexString`; a zero is prepended to
      an odd digit count and the whole text lower-cased. */
  function TextHex(t: string): (r: Result<string>)
    ensures r.Ok? <==> IsHexString(t, 0)
    ensures r.Ok? ==> Denotes(r.value, HexText(t))
  {
    if IsHexString(t, 0) then
      TextHexDenotes(t);
      Ok(ToLower("0x" + PadEven(t[2..])))
    else Err(InvalidHexValue)
  }

  lemma {:induction false} TextHexDenotes(t: string)
    requires IsHexString(t, 0)
    ensures Denotes(ToLower("0x" + PadEven(t[2..])), HexText(t))
  {
    var p := PadEven(t[2..]);
    var lp := ToLower(p);
    assert AllHexDigits(p) && HexValue(p) == HexValue(t[2..]) && |p| % 2 == 0 by {
      PadEvenValue(t[2..]);
    }
    assert AllHexDigits(lp) && HexValue(lp) == HexValue(p) by {
      HexValueToLower(p);
    }
    assert IsNormalHex("0x" + lp) && ("0x" + lp)[2..] == lp by {
      ToLowerHexDigits(p);
      NormalHexOf(lp);
    }
    assert ToLower("0x" + p) == "0x" + lp by {
      ToLowerPrefixed(p);
    }
  }

  lemma {:induction false} ToLowerPrefixed(p: string)
    ensures ToLower("0x" + p) == "0x" + ToLower(p)
  {
    assert ToLower("0x" + p)[..2] == "0x";
  }

  /** `normalizeHexValue(value)`. */
  function NormalizeHexValue(value: Quantity): (r: Result<string>)
    ensures r.Ok? <==> Acceptable(value)
    ensures !Acceptable(value) ==> r == Err(InvalidHexValue)
    ensures r.Ok? ==> Renders(r.value, value)
    ensures value == NumberValue(0) || value == BigIntValue(0) ==> r == Ok("0x00")
  {
    match value
    case NumberValue(n) => Ok(NumberHex(n))
    case BigIntValue(n) => Ok(BigIntHex(n))
    case HexText(t) => TextHex(t)
  }

  /** The digit loop of the `number` branch of `normalizeHexValue`: prepend
      `HEX_CHARACTERS[value & 0xf]` and divide by 16 until nothing is left. */
  method NumberToHex(value: nat) returns (r: string)
    ensures Denotes(r, NumberValue(value))
    ensures r == NumberHex(value)
  {
    var hex := "";
    var v: nat := value;
    while v != 0
      invariant value == 0 ==> hex == "" && v == 0
      invariant value > 0 && v > 0 ==> HexDigits(value) == HexDigits(v) + hex
      invariant value > 0 && v == 0 ==> HexDigits(value) == hex
      decreases v
    {
      assert v >= 16 ==> HexDigits(v) == HexDigits(v / 16) + [Digit(v % 16)];
      hex := [HEX_CHARACTERS[v % 16]] + hex;
      v := v / 16;
    }
    if |hex| > 0 {
      assert hex == HexDigits(value);
      if |hex| % 2 == 1 {
        hex := "0" + hex;
      }
      assert hex == PadEven(HexDigits(value));
      assert NumberHex(value) == "0x" + hex;
      return "0x" + hex;
    }
    return "0x00";
  }

  /** The `number` loop of `normalizeHexValue` as written, on any integer, run
      for at most `fuel` passes (`None` when it has not stopped by then). For
      an integer, `value & 0xf` is its remainder modulo 16 (two's complement
      keeps the low four bits) and `Math.floor(value / 16)` is floor
      division, which are Dafny's `%` and `/` by a positive divisor. */
  function NumberLoopAsWritten(value: int, hex: string, fuel: nat): Option<string>
    decreases fuel
  {
    if value == 0 then Some(hex)
    else if fuel == 0 then None
    else NumberLoopAsWritten(value / 16, [HEX_CHARACTERS[value % 16]] + hex, fuel - 1)
  }

  /** On a natural the loop stops within `value` passes with the digits of
      `toString(16)`. */
  lemma {:induction false} NumberLoopOnNaturals(value: nat, hex: string, fuel: nat)
    requires value > 0 && fuel >= value
    ensures NumberLoopAsWritten(value, hex, fuel) == Some(HexDigits(value) + hex)
    decreases value
  {
    var c := HEX_CHARACTERS[value % 16];
    assert c == Digit(value % 16);
    if value / 16 != 0 {
      NumberLoopOnNaturals(value / 16, [c] + hex, fuel - 1);
      assert HexDigits(value) == HexDigits(value / 16) + [c];
      assert HexDigits(value / 16) + ([c] + hex) == HexDigits(value) + hex;
    } else {
      assert HexDigits(value) == [c];
    }
  }

  /** On a negative number the loop never stops: -1 is a fixed point
      (`Math.floor(-1 / 16)` is -1, and each pass prepends "f"), and every
      negative value stays negative, however many passes are allowed. */
  lemma {:induction false} NumberLoopNeverEndsOnNegative(value: int, hex: string, fuel: nat)
    requires value < 0
    ensures NumberLoopAsWritten(value, hex, fuel).None?
    ensures value == -1 ==> value / 16 == -1 && HEX_CHARACTERS[value % 16] == 'f'
    decreases fuel
  {
    if fuel > 0 {
      NumberLoopNeverEndsOnNegative(value / 16, [HEX_CHARACTERS[value % 16]] + hex, fuel - 1);
    }
  }

  /** Both numeric branches agree on the naturals: the `number` branch pads
      the loop's digits, the `bigint` branch prepends "0x0" to an odd-length
      `toString(16)`. That the loop computes those digits is proved in
      `NumberToHex`. */
  lemma {:induction false} NumberAndBigIntAgree(n: nat)
    ensures NormalizeHexValue(NumberValue(n)) == NormalizeHexValue(BigIntValue(n))
  {
    var d := HexDigits(n);
    if n == 0 {
      assert d == "0";
    } else if |d| % 2 == 1 {
      assert "0x" + PadEven(d) == "0x0" + d;
    }
  }

  /** A negative `bigint` is accepted but rendered with its minus sign, e.g.
      -1 as "0x-1": the result is not hex text, so it cannot be normalised
      again. */
  lemma {:induction false} NegativeBigIntNotHex(n: int)
    requires n < 0
    ensures NormalizeHexValue(BigIntValue(n)).Ok?
    ensures !IsHexString(NormalizeHexValue(BigIntValue(n)).value, 0)
    ensures NormalizeHexValue(HexText(NormalizeHexValue(BigIntValue(n)).value)) == Err(InvalidHexValue)
    ensures n == -1 ==> NormalizeHexValue(BigIntValue(n)) == Ok("0x-1")
  {
    var s := NormalizeHexValue(BigIntValue(n)).value;
    var k := if s[2] == '0' then 3 else 2;
    assert s[k] == '-';
    assert !IsHexDigit(s[2..][k - 2]);
    if n == -1 {
      assert HexDigits(1) == "1";
      assert SignedHexDigits(-1) == "-1";
      assert "0x" + "-1" == "0x-1";
    }
  }

  /** Normalised text is a fixed point. */
  lemma {:induction false} NormalizeHexValueIdempotent(s: string)
    requires IsNormalHex(s)
    ensures NormalizeHexValue(HexText(s)) == Ok(s)
  {
    var d := s[2..];
    assert s == "0x" + d;
    assert HasNoUpper(s) by {
      forall i | 0 <= i < |s|
        ensures !('A' <= s[i] <= 'Z')
      {
        if i >= 2 {
          assert s[i] == d[i - 2];
        }
      }
    }
    ToLowerOfLower(s);
  }

  /** Normalising twice is normalising once, for every quantity but a negative
      `bigint` (see `NegativeBigIntNotHex`). */
  lemma {:induction false} NormalizeTwice(q: Quantity)
    requires Acceptable(q) && Unsigned(q)
    ensures NormalizeHexValue(HexText(NormalizeHexValue(q).value)) == NormalizeHexValue(q)
  {
    NormalizeHexValueIdempotent(NormalizeHexValue(q).value);
  }

  /** `formalizeEthToAddress(to)`: "0x" and falsy values become the empty
      address; any other text must be 42 characters long. */
  function FormalizeEthToAddress(to: Option<string>): (r: Result<string>)
    ensures r.Ok? ==> |r.value| == 42
    ensures to == Some("0x") || to == None || to == Some("") ==> r == Ok(DEFAULT_EMPTY_ETH_ADDRESS)
    ensures to.Some? && to.value != "0x" && to.value != "" ==>
      (if |to.value| == 42 then r == Ok(to.value) else r == Err(InvalidToAddressLength(|to.value|)))
  {
    if to == Some("0x") then Ok(DEFAULT_EMPTY_ETH_ADDRESS)
    else if to.None? || to.value == "" then Ok(DEFAULT_EMPTY_ETH_ADDRESS)
    else if |to.value| != 42 then Err(InvalidToAddressLength(|to.value|))
    else Ok(to.value)
  }

  /** "0x0", which the argument encoder treats as a creation target, never
      gets past `formalizeEthToAddress`. */
  lemma {:induction false} ShortZeroToRejected()
    ensures FormalizeEthToAddress(Some("0x0")) == Err(InvalidToAddressLength(3))
  {
  }

  /** An Ethereum transaction as callers hand it in, every field optional. */
  datatype InformalEthTransaction = InformalEthTransaction(
    from: Option<string>,
    to: Option<string>,
    gas: Option<Quantity>,
    gasLimit: Option<Quantity>,
    gasPrice: Option<Quantity>,
    value: Option<Quantity>,
    data: Option<string>)

  /** An Ethereum transaction with hex-text fields (`EthTransaction`); `gas`
      and `gasPrice` are optional in its type. */
  datatype EthTransaction = EthTransaction(
    from: string,
    to: string,
    gas: Option<string>,
    gasPrice: Option<string>,
    value: string,
    data: string)

  /** The quantity each field is normalised from, after the `||` fallbacks. */
  function GasSource(tx: InformalEthTransaction): Quantity
  {
    Or(tx.gas, Or(tx.gasLimit, HexText(POLY_MAX_TRANSACTION_GAS_LIMIT)))
  }

  function GasPriceSource(tx: InformalEthTransaction): Quantity
  {
    Or(tx.gasPrice, HexText(POLY_MIN_GAS_PRICE))
  }

  function ValueSource(tx: InformalEthTransaction): Quantity
  {
    Or(tx.value, HexText("0x00"))
  }

  function DataSource(tx: InformalEthTransaction): Quantity
  {
    HexText(OrText(tx.data, "0x00"))
  }

  /** The transactions `normalizeEthTransaction` accepts: a sender, a
      recipient `formalizeEthToAddress` accepts, and four quantities, after
      their fallbacks, that `normalizeHexValue` accepts. */
  predicate Normalizable(tx: InformalEthTransaction)
  {
    && tx.from.Some? && tx.from.value != ""
    && FormalizeEthToAddress(tx.to).Ok?
    && Acceptable(GasSource(tx)) && Acceptable(GasPriceSource(tx))
    && Acceptable(ValueSource(tx)) && Acceptable(DataSource(tx))
  }

  /** `normalizeEthTransaction(tx)`. */
  function NormalizeEthTransaction(tx: InformalEthTransaction): (r: Result<EthTransaction>)
    ensures tx.from.None? || tx.from.value == "" ==> r == Err(MissingFrom)
    ensures r.Ok? <==> Normalizable(tx)
    ensures r.Ok? ==>
      && r.value.from == tx.from.value
      && r.value.to == FormalizeEthToAddress(tx.to).value
      && r.value.gas.Some? && r.value.gasPrice.Some?
    ensures r.Ok? ==>
      && Renders(r.value.gas.value, GasSource(tx)) && Renders(r.value.gasPrice.value, GasPriceSource(tx))
      && Renders(r.value.value, ValueSource(tx)) && Renders(r.value.data, DataSource(tx))
  {
    if tx.from.None? || tx.from.value == "" then Err(MissingFrom)
    else
      var to :- FormalizeEthToAddress(tx.to);
      var gas :- NormalizeHexValue(GasSource(tx));
      var gasPrice :- NormalizeHexValue(GasPriceSource(tx));
      var value :- NormalizeHexValue(ValueSource(tx));
      var data :- NormalizeHexValue(DataSource(tx));
      Ok(EthTransaction(tx.from.value, to, Some(gas), Some(gasPrice), value, data))
  }

  /** The fields of a normalised transaction, after the fallbacks: gas from
      `gas`, else `gasLimit`, else the PolyJuice maximum; the gas price from
      `gasPrice`, else the minimum; the value and the data default to zero. */
  lemma {:induction false} NormalizedFields(tx: InformalEthTransaction)
    requires Normalizable(tx)
    ensures var r := NormalizeEthTransaction(tx).value;
      && (tx.gas.Some? && Truthy(tx.gas.value) ==> Renders(r.gas.value, tx.gas.value))
      && (!(tx.gas.Some? && Truthy(tx.gas.value)) && tx.gasLimit.Some? && Truthy(tx.gasLimit.value) ==>
            Renders(r.gas.value, tx.gasLimit.value))
      && (!(tx.gas.Some? && Truthy(tx.gas.value)) && !(tx.gasLimit.Some? && Truthy(tx.gasLimit.value)) ==>
            Denotes(r.gas.value, HexText(POLY_MAX_TRANSACTION_GAS_LIMIT)))
      && Renders(r.gasPrice.value,
           if tx.gasPrice.Some? && Truthy(tx.gasPrice.value) then tx.gasPrice.value else HexText(POLY_MIN_GAS_PRICE))
      && Renders(r.value, if tx.value.Some? && Truthy(tx.value.value) then tx.value.value else NumberValue(0))
      && Denotes(r.data, if tx.data.Some? && tx.data.value != "" then HexText(tx.data.value) else NumberValue(0))
  {
    var r := NormalizeEthTransaction(tx).value;
    if !(tx.value.Some? && Truthy(tx.value.value)) {
      ZeroTextDenotesZero(r.value);
    }
    if !(tx.data.Some? && tx.data.value != "") {
      ZeroTextDenotesZero(r.data);
    }
  }

  /** The text fallback "0x00" stands for zero. */
  lemma {:induction false} ZeroTextDenotesZero(s: string)
    requires Denotes(s, HexText("0x00"))
    ensures Denotes(s, NumberValue(0))
  {
    assert "0x00"[2..] == "00";
    assert HexValue("00") == 16 * HexValue("0") + 0;
  }

  lemma {:induction false} DivisionBounds(v: nat, d: int)
    requires d > 0
    ensures d * (v / d) <= v < d * (v / d + 1)
  {
    var q, m := v / d, v % d;
    assert v == d * q + m && 0 <= m < d;
    assert d * (q + 1) == d * q + d;
  }

  /** `ethToCkb(value, decimal)`: `BigInt` division, which truncates toward zero. */
  function EthToCkb(value: string, decimal: int): (r: Result<int>)
    ensures r.Ok? <==> ParseBigInt(value).Ok? && decimal != 0
    ensures r.Ok? && decimal > 0 ==>
      decimal * r.value <= ParseBigInt(value).value < decimal * (r.value + 1)
  {
    var v :- ParseBigInt(value);
    if decimal == 0 then Err(DivisionByZero)
    else if decimal > 0 then
      DivisionBounds(v, decimal);
      Ok(v / decimal)
    else Ok(-(v / -decimal))
  }

  /** `ckbToEth(value, decimal)`: `BigInt` multiplication. */
  function CkbToEth(value: string, decimal: int): (r: Result<int>)
    ensures r.Ok? <==> ParseBigInt(value).Ok?
    ensures r.Err? ==> r == Err(ParseBigInt(value).error)
  {
    var v :- ParseBigInt(value);
    Ok(v * decimal)
  }

  /** Scaling up and then down by the same positive decimal is the identity. */
  lemma {:induction false} CkbEthRoundTrip(value: string, decimal: int)
    requires ParseBigInt(value).Ok? && decimal > 0
    ensures CkbToEth(value, decimal).Ok? && CkbToEth(value, decimal).value >= 0
    ensures EthToCkb("0x" + HexDigits(CkbToEth(value, decimal).value), decimal) == ParseBigInt(value)
    ensures CkbToEth(value, decimal).value % decimal == 0
  {
    var v := ParseBigInt(value).value;
    var m := v * decimal;
    ParseBigIntOfHexDigits(m);
    DivUnique(m, decimal, v, 0);
    MultipleModZero(v, decimal);
  }

  /** A multiple of `d` leaves no remainder. */
  lemma {:induction false} MultipleModZero(v: nat, d: int)
    requires d > 0
    ensures (v * d) % d == 0
  {
    DivUnique(v * d, d, v, 0);
    assert v * d == d * ((v * d) / d) + (v * d) % d;
  }

  /** The longest prefix of hex digits. */
  function LeadingHexDigits(s: string): (r: string)
    ensures AllHexDigits(r) && r <= s
  {
    if s != [] && IsHexDigit(s[0]) then [s[0]] + LeadingHexDigits(s[1..]) else []
  }

  /** The characters `parseInt` skips before a number: the white space and
      line terminators of ECMAScript (tab, the line breaks, vertical tab, form
      feed, the space separators, the no-break space and the byte-order mark). */
  predicate IsJsWhiteSpace(c: char)
  {
    var k := c as int;
    || 9 <= k <= 13 || k == 0x20 || k == 0xA0 || k == 0x1680
    || 0x2000 <= k <= 0x200A || k == 0x2028 || k == 0x2029
    || k == 0x202F || k == 0x205F || k == 0x3000 || k == 0xFEFF
  }

  /** `s` without its leading white space. */
  function TrimStart(s: string): (r: string)
    ensures r <= s || (|r| <= |s| && r == s[|s| - |r|..])
    ensures r != [] ==> !IsJsWhiteSpace(r[0])
  {
    if s != [] && IsJsWhiteSpace(s[0]) then TrimStart(s[1..]) else s
  }

  /** `Number.parseInt(s, 16)`: leading white space is skipped, then an
      optional sign, then an optional `0x`/`0X`, then the leading hex digits
      are read; `None` stands for NaN, when there are none. `-0` is 0. */
  function ParseIntHex(s: string): (r: Option<int>)
    ensures r.Some? && r.value < 0 ==> var t := TrimStart(s); t != [] && t[0] == '-'
  {
    var t := TrimStart(s);
    var negative := t != [] && t[0] == '-';
    var u := if t != [] && (t[0] == '-' || t[0] == '+') then t[1..] else t;
    var w := if |u| >= 2 && u[0] == '0' && (u[1] == 'x' || u[1] == 'X') then u[2..] else u;
    var d := LeadingHexDigits(w);
    var v: int := if negative then 0 - HexValue(d) else HexValue(d);
    if d == [] then None else Some(v)
  }

  /** The recovery byte `packSignature` writes for a parsed `v`. */
  function CanonicalV(v: int): int
  {
    if v >= 27 then v - 27 else v
  }

  lemma {:induction false} SmallHexDigits(n: nat)
    requires n < 256
    ensures |HexDigits(n)| <= 2
  {
  }

  /** What `packSignature` writes in place of the tail it parsed. */
  function PackedV(tail: string): string
  {
    match ParseIntHex(tail)
    case None => "NaN"
    case Some(v) => PadStart(SignedHexDigits(CanonicalV(v)), 2, '0')
  }

  /** `packSignature(signature)`: the last two characters are read with
      `parseInt(_, 16)`; `v` is re-rendered as `v - 27` when `v >= 27`, with
      `toString(16)` padded to two characters. NaN renders as "NaN". */
  function PackSignature(signature: string): (r: string)
    ensures AllButLast(signature, 2) <= r
    ensures ParseIntHex(Last(signature, 2)).None? ==> r == AllButLast(signature, 2) + "NaN"
  {
    AllButLast(signature, 2) + PackedV(Last(signature, 2))
  }

  /** The pieces `packSignature` splits a signature into. */
  lemma {:induction false} SignatureTail(head: string, tail: string)
    requires |tail| == 2
    ensures Last(head + tail, 2) == tail && AllButLast(head + tail, 2) == head
  {
  }

  /** A single digit reads as its value. */
  lemma {:induction false} HexValueOfDigit(c: char)
    requires IsHexDigit(c)
    ensures AllHexDigits([c]) && HexValue([c]) == DigitValue(c)
    ensures LeadingHexDigits([c]) == [c]
    ensures HexDigits(DigitValue(c)) == [Digit(DigitValue(c))]
  {
    assert [c][..0] == [];
    assert [c][1..] == [];
  }

  /** A two-digit tail parses to its hex value. */
  lemma {:induction false} ParseIntHexOfPair(t: string)
    requires |t| == 2 && AllHexDigits(t)
    ensures ParseIntHex(t) == Some(HexValue(t))
  {
    assert TrimStart(t) == t;
    assert LeadingHexDigits(t[1..]) == t[1..];
    assert LeadingHexDigits(t) == t;
  }

  /** Padding a byte's digits to two keeps their value. */
  lemma {:induction false} PadByteDigits(n: nat)
    requires n < 256
    ensures var p := PadStart(HexDigits(n), 2, '0');
      |p| == 2 && AllHexDigits(p) && HexValue(p) == n
  {
    var d := HexDigits(n);
    SmallHexDigits(n);
    HexValueOfHexDigits(n);
    if |d| == 1 {
      assert PadStart(d, 2, '0') == ['0'] + d;
      HexValueLeadingZero(d);
    }
  }

  /** For a hex tail `v`, `packSignature` keeps every earlier character and
      writes `v - 27` (when `v >= 27`) as two hex digits in its place. */
  lemma {:induction false} PackSignatureRewritesV(signature: string)
    requires |signature| >= 2 && AllHexDigits(signature[|signature| - 2..])
    ensures var n, r := |signature|, PackSignature(signature);
      && |r| == n
      && r[..n - 2] == signature[..n - 2]
      && AllHexDigits(r[n - 2..])
      && HexValue(r[n - 2..]) == CanonicalV(HexValue(signature[n - 2..]))
  {
    var n := |signature|;
    var t := signature[n - 2..];
    ParseIntHexOfPair(t);
    var v := HexValue(t);
    assert v < 256 by {
      assert t[..1] == [t[0]];
      assert HexValue(t[..1]) == DigitValue(t[0]);
    }
    PadByteDigits(CanonicalV(v));
    var r := PackSignature(signature);
    var p := PadStart(HexDigits(CanonicalV(v)), 2, '0');
    assert r == signature[..n - 2] + p;
    assert r[n - 2..] == p;
  }

  /** A legacy `v` of 27 or 28 becomes the raw recovery id 0 or 1, and every
      byte before it is left alone. */
  lemma {:induction false} PackSignatureRecoveryId(signature: string)
    requires |signature| >= 2 && AllHexDigits(signature[|signature| - 2..])
    requires HexValue(signature[|signature| - 2..]) in {27, 28}
    ensures |PackSignature(signature)| == |signature|
    ensures PackSignature(signature)[..|signature| - 2] == signature[..|signature| - 2]
    ensures AllHexDigits(PackSignature(signature)[|signature| - 2..])
    ensures HexValue(PackSignature(signature)[|signature| - 2..]) == HexValue(signature[|signature| - 2..]) - 27
  {
    PackSignatureRewritesV(signature);
    assert CanonicalV(HexValue(signature[|signature| - 2..])) == HexValue(signature[|signature| - 2..]) - 27;
  }

  /** A signature ending in "0x" has no digits to parse: its tail becomes "NaN". */
  lemma {:induction false} PackSignatureNaN(head: string)
    ensures PackSignature(head + "0x") == head + "NaN"
  {
    var s := head + "0x";
    assert Last(s, 2) == "0x";
    assert AllButLast(s, 2) == head;
    assert TrimStart("0x") == "0x";
  }

  /** A tail of white space and one digit is read as that digit, which comes
      back with a zero in front: "0xab 5" becomes "0xab05". */
  lemma {:induction false} PackSignatureSpacedDigit(head: string, space: char, c: char)
    requires IsJsWhiteSpace(space) && IsHexDigit(c)
    ensures PackSignature(head + [space, c]) == head + ['0', Digit(DigitValue(c))]
  {
    SignatureTail(head, [space, c]);
    HexValueOfDigit(c);
    assert TrimStart([space, c]) == [c] by {
      assert [space, c][1..] == [c];
    }
    assert ParseIntHex([space, c]) == Some(DigitValue(c));
    assert PackedV([space, c]) == ['0', Digit(DigitValue(c))];
  }

  /** `parseInt("-c", 16)` is the digit's value negated. */
  lemma {:induction false} ParseIntHexNegativeDigit(c: char)
    requires IsHexDigit(c)
    ensures ParseIntHex(['-', c]) == Some(0 - DigitValue(c))
  {
    HexValueOfDigit(c);
    var t := ['-', c];
    assert !IsJsWhiteSpace('-');
    assert TrimStart(t) == t;
    assert t[1..] == [c];
    assert !(|[c]| >= 2);
  }

  /** A tail of a minus sign and one digit is read as a negative `v`, which is
      below 27 and so is written back with its sign: "0xab-1" stays "0xab-1",
      while "-0" is zero and becomes "00". */
  lemma {:induction false} PackSignatureNegativeDigit(head: string, c: char)
    requires IsHexDigit(c)
    ensures PackSignature(head + ['-', c]) ==
      if DigitValue(c) == 0 then head + "00" else head + ['-', Digit(DigitValue(c))]
  {
    SignatureTail(head, ['-', c]);
    ParseIntHexNegativeDigit(c);
    HexValueOfDigit(c);
    var v := 0 - DigitValue(c);
    assert CanonicalV(v) == v;
    if DigitValue(c) == 0 {
      assert SignedHexDigits(v) == "0";
    } else {
      assert SignedHexDigits(v) == ['-', Digit(DigitValue(c))];
    }
  }
}
