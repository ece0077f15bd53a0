/** Hex text as the provider reads and writes it: the `isHexString` test,
    `Number.prototype.toString(16)`, `BigInt(text)`, and the byte/hex
    conversions of Node's `Buffer` (`Buffer.from(s, "hex")` and
    `buf.toString("hex")`). */
module Hex {
  import opened Results
  import opened JsText

  type Byte = b: int | 0 <= b < 256

  predicate IsHexDigit(c: char)
  {
    '0' <= c <= '9' || 'a' <= c <= 'f' || 'A' <= c <= 'F'
  }

  predicate IsLowerHexDigit(c: char)
  {
    '0' <= c <= '9' || 'a' <= c <= 'f'
  }

  predicate AllHexDigits(s: string)
  {
    forall i :: 0 <= i < |s| ==> IsHexDigit(s[i])
  }

  predicate AllLowerHexDigits(s: string)
  {
    forall i :: 0 <= i < |s| ==> IsLowerHexDigit(s[i])
  }

  function DigitValue(c: char): (d: nat)
    requires IsHexDigit(c)
    ensures d < 16
  {
    if '0' <= c <= '9' then c as int - '0' as int
    else if 'a' <= c <= 'f' then c as int - 'a' as int + 10
    else c as int - 'A' as int + 10
  }

  /** The digit alphabet of `toString(16)` (and `HEX_CHARACTERS`). */
  const HEX_CHARACTERS: string := "0123456789abcdef"

  function Digit(d: nat): (c: char)
    requires d < 16
    ensures IsLowerHexDigit(c) && DigitValue(c) == d
  {
    HEX_CHARACTERS[d]
  }

  /** The value of a digit string, most significant digit first. */
  function HexValue(s: string): nat
    requires AllHexDigits(s)
    decreases |s|
  {
    if s == [] then 0 else 16 * HexValue(s[..|s| - 1]) + DigitValue(s[|s| - 1])
  }

  /** `n.toString(16)`: minimal lower-case digits, "0" for zero. */
  function HexDigits(n: nat): (r: string)
    ensures |r| > 0 && AllLowerHexDigits(r)
    decreases n
  {
    if n < 16 then [Digit(n)] else HexDigits(n / 16) + [Digit(n % 16)]
  }

  /** `toString(16)` is read back by `HexValue`. */
  lemma {:induction false} HexValueOfHexDigits(n: nat)
    ensures HexValue(HexDigits(n)) == n
    decreases n
  {
    if n >= 16 {
      var s := HexDigits(n);
      assert s[..|s| - 1] == HexDigits(n / 16);
      HexValueOfHexDigits(n / 16);
    }
  }

  /** `toString(16)` never starts with a redundant zero. */
  lemma {:induction false} HexDigitsMinimal(n: nat)
    ensures HexDigits(n)[0] == '0' <==> n == 0
    decreases n
  {
    if n >= 16 {
      HexDigitsMinimal(n / 16);
    }
  }

  /** A leading zero digit does not change the value. */
  lemma {:induction false} HexValueLeadingZero(s: string)
    requires AllHexDigits(s)
    ensures AllHexDigits(['0'] + s) && HexValue(['0'] + s) == HexValue(s)
    decreases |s|
  {
    var t := ['0'] + s;
    if s != [] {
      assert t[..|t| - 1] == ['0'] + s[..|s| - 1];
      HexValueLeadingZero(s[..|s| - 1]);
    }
  }

  /** Case does not change the value of a digit string. */
  lemma {:induction false} HexValueToLower(s: string)
    requires AllHexDigits(s)
    ensures AllHexDigits(ToLower(s)) && HexValue(ToLower(s)) == HexValue(s)
    decreases |s|
  {
    if s != [] {
      var p := s[..|s| - 1];
      assert ToLower(s)[..|s| - 1] == ToLower(p);
      HexValueToLower(p);
    }
  }

  /** `isHexString(value, length)`: the text matches `^0x[0-9A-Fa-f]*$`, and when
      a non-zero `length` is given it has exactly that many bytes. A `length` of
      0 behaves like an absent one, as the source tests it for truthiness. */
  predicate IsHexString(value: string, length: nat)
  {
    && |value| >= 2 && value[0] == '0' && value[1] == 'x'
    && AllHexDigits(value[2..])
    && (length == 0 || |value| == 2 + 2 * length)
  }

  /** A text `isHexString` accepts decodes in full: `Buffer.from(digits, "hex")`
      yields one byte per digit pair (an odd trailing digit aside), and a
      non-zero `length` is exactly that byte count. */
  lemma {:induction false} IsHexStringDecodes(value: string, length: nat)
    requires IsHexString(value, length)
    ensures |HexBytes(value[2..])| == (|value| - 2) / 2
    ensures length != 0 ==> |HexBytes(value[2..])| == length
  {
    HexBytesOfAllHex(value[2..]);
  }

  lemma {:induction false} HexBytesOfAllHex(s: string)
    requires AllHexDigits(s)
    ensures |HexBytes(s)| == |s| / 2
    decreases |s|
  {
    if |s| >= 2 {
      assert IsHexDigit(s[0]) && IsHexDigit(s[1]);
      HexBytesOfAllHex(s[2..]);
    }
  }

  /** `n.toString(16)` for any integer: a minus sign before the digits of a
      negative number. */
  function SignedHexDigits(n: int): string
  {
    if n < 0 then "-" + HexDigits(-n) else HexDigits(n)
  }

  /** `buf.toString("hex")`: two lower-case digits per byte. */
  function BytesToHex(b: seq<Byte>): (r: string)
    ensures |r| == 2 * |b|
    ensures AllLowerHexDigits(r)
  {
    if b == [] then [] else [Digit(b[0] / 16), Digit(b[0] % 16)] + BytesToHex(b[1..])
  }

  /** `Buffer.from(s, "hex")`: decodes digit pairs and stops at the first pair
      that is not two hex digits (an odd trailing digit is dropped). */
  function HexBytes(s: string): (r: seq<Byte>)
    ensures 2 * |r| <= |s|
    decreases |s|
  {
    if |s| >= 2 && IsHexDigit(s[0]) && IsHexDigit(s[1])
    then [16 * DigitValue(s[0]) + DigitValue(s[1])] + HexBytes(s[2..])
    else []
  }

  lemma {:induction false} BytesToHexAppend(a: seq<Byte>, c: seq<Byte>)
    ensures BytesToHex(a + c) == BytesToHex(a) + BytesToHex(c)
    decreases |a|
  {
    if a != [] {
      var x := a[0];
      assert (a + c)[0] == x;
      assert (a + c)[1..] == a[1..] + c;
      BytesToHexAppend(a[1..], c);
      calc {
        BytesToHex(a + c);
        [Digit(x / 16), Digit(x % 16)] + BytesToHex(a[1..] + c);
        [Digit(x / 16), Digit(x % 16)] + (BytesToHex(a[1..]) + BytesToHex(c));
        ([Digit(x / 16), Digit(x % 16)] + BytesToHex(a[1..])) + BytesToHex(c);
      }
    } else {
      assert a + c == c;
    }
  }

  /** Decoding the hex text of some bytes gives those bytes back, whatever follows. */
  lemma {:induction false} HexBytesOfBytesToHex(b: seq<Byte>, rest: string)
    ensures HexBytes(BytesToHex(b) + rest) == b + HexBytes(rest)
    decreases |b|
  {
    if b != [] {
      var x := b[0];
      var s := BytesToHex(b) + rest;
      assert BytesToHex(b) == [Digit(x / 16), Digit(x % 16)] + BytesToHex(b[1..]);
      assert s[0] == Digit(x / 16) && s[1] == Digit(x % 16);
      assert 16 * DigitValue(s[0]) + DigitValue(s[1]) == x;
      assert s[2..] == BytesToHex(b[1..]) + rest;
      HexBytesOfBytesToHex(b[1..], rest);
      assert b == [x] + b[1..];
    } else {
      assert BytesToHex(b) + rest == rest;
    }
  }

  /** Byte `i` of the input is digits `2i` and `2i + 1` of the hex text. */
  lemma {:induction false} BytesToHexSlice(b: seq<Byte>, i: nat, j: nat)
    requires i <= j <= |b|
    ensures BytesToHex(b)[2 * i..2 * j] == BytesToHex(b[i..j])
  {
    var p, m, q := b[..i], b[i..j], b[j..];
    assert b == (p + m) + q;
    BytesToHexAppend(p + m, q);
    BytesToHexAppend(p, m);
    MiddleSlice(BytesToHex(p), BytesToHex(m), BytesToHex(q));
  }

  lemma {:induction false} MiddleSlice<T>(a: seq<T>, m: seq<T>, c: seq<T>)
    ensures (a + m + c)[|a|..|a| + |m|] == m
  {
  }

  predicate IsDecDigit(c: char)
  {
    '0' <= c <= '9'
  }

  predicate AllDecDigits(s: string)
  {
    forall i :: 0 <= i < |s| ==> IsDecDigit(s[i])
  }

  function DecValue(s: string): nat
    requires AllDecDigits(s)
    decreases |s|
  {
    if s == [] then 0 else 10 * DecValue(s[..|s| - 1]) + (s[|s| - 1] as int - '0' as int)
  }

  /** `BigInt(text)` for the integer literals the provider passes it: the empty
      string is 0, `0x`/`0X` introduces at least one hex digit, otherwise the
      text must be decimal digits; anything else is a `SyntaxError`. */
  function ParseBigInt(s: string): (r: Result<nat>)
    ensures r.Ok? && |s| > 2 && s[..2] == "0x" ==> AllHexDigits(s[2..])
    ensures s == "0x" ==> r == Err(SyntaxError)
  {
    if s == [] then Ok(0)
    else if |s| >= 2 && s[0] == '0' && (s[1] == 'x' || s[1] == 'X') then
      if |s| > 2 && AllHexDigits(s[2..]) then Ok(HexValue(s[2..])) else Err(SyntaxError)
    else if AllDecDigits(s) then Ok(DecValue(s))
    else Err(SyntaxError)
  }

  /** A `0x`-prefixed rendering of `n` parses back to `n`. */
  lemma {:induction false} ParseBigIntOfHexDigits(n: nat)
    ensures ParseBigInt("0x" + HexDigits(n)) == Ok(n)
  {
    var s := "0x" + HexDigits(n);
    assert s[2..] == HexDigits(n);
    HexValueOfHexDigits(n);
  }
}
