/** The JavaScript string operations the provider relies on, with their
    lenient edge cases: `slice` clamps its bounds instead of failing, and
    `toLowerCase` is modelled on the ASCII range (all the text it sees is hex). */
module JsText {

  /** `s.slice(start)` for a non-negative start: empty once past the end. */
  function Drop<T>(s: seq<T>, start: nat): seq<T>
  {
    if start <= |s| then s[start..] else []
  }

  /** `s.slice(start, end)` for non-negative bounds: both are clamped to the length. */
  function Slice<T>(s: seq<T>, start: nat, end: nat): seq<T>
  {
    var e := if end <= |s| then end else |s|;
    if start <= e then s[start..e] else []
  }

  /** `s.slice(-n)`: the last `n` elements, or all of `s` when it is shorter. */
  function Last<T>(s: seq<T>, n: nat): seq<T>
  {
    if n <= |s| then s[|s| - n..] else s
  }

  /** `s.slice(0, -n)`: everything but the last `n` elements, or nothing. */
  function AllButLast<T>(s: seq<T>, n: nat): seq<T>
  {
    if n <= |s| then s[..|s| - n] else []
  }

  function LowerChar(c: char): char
  {
    if 'A' <= c <= 'Z' then (c as int + 32) as char else c
  }

  /** `s.toLowerCase()` on ASCII text. */
  function ToLower(s: string): (r: string)
    ensures |r| == |s|
    ensures forall i :: 0 <= i < |s| ==> r[i] == LowerChar(s[i])
  {
    seq(|s|, i requires 0 <= i < |s| => LowerChar(s[i]))
  }

  /** Two texts that agree letter by letter once upper-case letters are lowered. */
  predicate SameIgnoringCase(a: string, b: string)
  {
    |a| == |b| && forall i :: 0 <= i < |a| ==> LowerChar(a[i]) == LowerChar(b[i])
  }

  predicate HasNoUpper(s: string)
  {
    forall i :: 0 <= i < |s| ==> !('A' <= s[i] <= 'Z')
  }

  /** Lower-casing is the identity on text without upper-case letters. */
  lemma {:induction false} ToLowerOfLower(s: string)
    requires HasNoUpper(s)
    ensures ToLower(s) == s
  {
  }

  function Repeat(c: char, n: nat): (r: string)
    ensures |r| == n
    ensures forall i :: 0 <= i < n ==> r[i] == c
  {
    seq(n, i => c)
  }

  /** `s.padStart(width, c)` with a one-character pad. */
  function PadStart(s: string, width: nat, c: char): (r: string)
    ensures |r| == if |s| < width then width else |s|
    ensures r[|r| - |s|..] == s
    ensures forall i :: 0 <= i < |r| - |s| ==> r[i] == c
  {
    if |s| < width then Repeat(c, width - |s|) + s else s
  }
}
