/** The two hex helpers of the key generator: `ab2hex`, which renders a byte
    buffer as lower-case hex text, and `hex2ab`, which collects every
    non-overlapping pair of adjacent hex digits of a string (the global,
    case-insensitive regular expression `/[\da-f]{2}/gi`) and parses each
    pair as one byte. */
module HexCodec {
  import opened Wrappers

  // ---------------------------------------------------------------------
  // Digits
  // ---------------------------------------------------------------------

  /** The digit `Number.prototype.toString(16)` writes for `d`: `0-9`, then
      the lower-case letters `a-f`. */
  function Digit(d: nat): (c: char)
    requires d < 16
    ensures IsLowerHexDigit(c)
    ensures HexValue(c) == d
  {
    if d < 10 then ('0' as int + d) as char else ('a' as int + (d - 10)) as char
  }

  predicate IsLowerHexDigit(c: char) {
    ('0' <= c <= '9') || ('a' <= c <= 'f')
  }

  /** A character the class `[\da-f]` matches under the `i` flag: an ASCII
      decimal digit or a letter `a-f` in either case. */
  predicate IsHexDigit(c: char) {
    ('0' <= c <= '9') || ('a' <= c <= 'f') || ('A' <= c <= 'F')
  }

  /** The value `parseInt(_, 16)` gives one hex digit. */
  function HexValue(c: char): (v: nat)
    requires IsHexDigit(c)
    ensures v < 16
  {
    if '0' <= c <= '9' then c as int - '0' as int
    else if 'a' <= c <= 'f' then c as int - 'a' as int + 10
    else c as int - 'A' as int + 10
  }

  // ---------------------------------------------------------------------
  // ab2hex
  // ---------------------------------------------------------------------

  /** `x.toString(16)` for a non-negative integer: most significant digit
      first, no leading zeros, "0" for zero. */
  function Radix16(x: nat): (s: string)
    ensures 1 <= |s|
    ensures x < 16 ==> s == [Digit(x)]
  {
    if x < 16 then [Digit(x)] else Radix16(x / 16) + [Digit(x % 16)]
  }

  /** `s.slice(start)`: a negative start counts back from the end and is
      clamped to 0, a start past the end gives the empty string. */
  function Slice(s: string, start: int): (t: string)
    ensures |t| <= |s|
    ensures t == s[|s| - |t|..]
  {
    var from := if start < 0 then (if |s| + start < 0 then 0 else |s| + start)
                else (if start < |s| then start else |s|);
    s[from..]
  }

  /** The mapping callback of `ab2hex`: `('00' + x.toString(16)).slice(-2)`.
      It is the high nibble's digit followed by the low nibble's digit. */
  function ByteToHex(x: byte): (h: string)
    ensures h == [Digit(x / 16), Digit(x % 16)]
  {
    if x < 16 then
      assert "00" + Radix16(x) == ['0', '0', Digit(x)];
      Slice("00" + Radix16(x), -2)
    else
      assert Radix16(x) == [Digit(x / 16), Digit(x % 16)];
      Slice("00" + Radix16(x), -2)
  }

  /** `ab2hex`: the callback applied to every byte, joined with no separator.
      Two lower-case digits per byte, high nibble first. */
  function Ab2hex(b: seq<byte>): (s: string)
    ensures |s| == 2 * |b|
    ensures forall i :: 0 <= i < |s| ==> IsLowerHexDigit(s[i])
    ensures forall i :: 0 <= i < |b| ==> s[2 * i] == Digit(b[i] / 16) && s[2 * i + 1] == Digit(b[i] % 16)
  {
    if |b| == 0 then ""
    else
      var head := ByteToHex(b[0]);
      var rest := Ab2hex(b[1..]);
      var s := head + rest;
      assert forall j :: 2 <= j < |s| ==> s[j] == rest[j - 2];
      assert forall i :: 1 <= i < |b| ==> b[i] == b[1..][i - 1] && 2 * i - 2 == 2 * (i - 1);
      s
  }

  // ---------------------------------------------------------------------
  // hex2ab
  // ---------------------------------------------------------------------

  /** Two adjacent hex digits: one match of `/[\da-f]{2}/i`. */
  predicate IsHexPair(h: string) {
    |h| == 2 && IsHexDigit(h[0]) && IsHexDigit(h[1])
  }

  /** The array `hex.match(/[\da-f]{2}/gi)` holds when it is not null. The
      scan tries a match at each position from left to right: where the
      next two characters are hex digits it takes them and resumes after
      them, otherwise it moves on by one character. */
  function Matches(s: string): (ms: seq<string>)
    ensures forall i :: 0 <= i < |ms| ==> IsHexPair(ms[i])
    ensures |ms| <= |s| / 2
    decreases |s|
  {
    if |s| < 2 then []
    else if IsHexDigit(s[0]) && IsHexDigit(s[1]) then [s[..2]] + Matches(s[2..])
    else Matches(s[1..])
  }

  /** `parseInt(h, 16)` for a two-digit match. */
  function ParsePair(h: string): (v: byte)
    requires IsHexPair(h)
    ensures v / 16 == HexValue(h[0]) && v % 16 == HexValue(h[1])
  {
    16 * HexValue(h[0]) + HexValue(h[1])
  }

  /** `.map(h => parseInt(h, 16))` over the matches, stored into a
      `Uint8Array`; every value is below 256, so nothing wraps. */
  function ParseAll(ms: seq<string>): (b: seq<byte>)
    requires forall i :: 0 <= i < |ms| ==> IsHexPair(ms[i])
    ensures |b| == |ms|
    ensures forall i :: 0 <= i < |ms| ==> b[i] == ParsePair(ms[i])
  {
    if |ms| == 0 then [] else [ParsePair(ms[0])] + ParseAll(ms[1..])
  }

  /** Why `hex2ab` throws: `match` found nothing and returned `null`, on
      which `.map` raises a `TypeError`. */
  datatype HexError = NullMatch

  /** `hex2ab`. */
  function Hex2ab(hex: string): (r: Result<seq<byte>, HexError>)
    ensures r.Success? ==> 0 < |r.value| <= |hex| / 2
  {
    var ms := Matches(hex);
    if |ms| == 0 then Failure(NullMatch) else Success(ParseAll(ms))
  }
}
