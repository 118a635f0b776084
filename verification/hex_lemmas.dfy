/** Properties of `hex2ab` and `ab2hex`: the round trip, the exact failure
    condition, case-insensitivity, skipped separators, and an engine-style
    scan that agrees with the left-to-right scanning rule. */
module HexLemmas {
  import opened Wrappers
  import opened HexCodec

  // ---------------------------------------------------------------------
  // Round trip
  // ---------------------------------------------------------------------

  /** Parsing the text `ab2hex` writes for one byte gives the byte back. */
  lemma ParseByteToHex(x: byte)
    ensures IsHexPair(ByteToHex(x))
    ensures ParsePair(ByteToHex(x)) == x
  {
  }

  /** The scan splits the text of `ab2hex` exactly at byte boundaries, and
      parsing the pieces gives the bytes back. */
  lemma {:induction false} MatchesOfAb2hex(b: seq<byte>)
    ensures |Matches(Ab2hex(b))| == |b|
    ensures ParseAll(Matches(Ab2hex(b))) == b
  {
    if |b| > 0 {
      var s := Ab2hex(b);
      var head := ByteToHex(b[0]);
      assert s == head + Ab2hex(b[1..]);
      assert s[..2] == head && s[2..] == Ab2hex(b[1..]);
      ParseByteToHex(b[0]);
      MatchesOfAb2hex(b[1..]);
      assert Matches(s) == [head] + Matches(Ab2hex(b[1..]));
      var ms := Matches(s);
      assert ms[1..] == Matches(Ab2hex(b[1..]));
      assert ParseAll(ms) == [ParsePair(head)] + ParseAll(ms[1..]);
    }
  }

  /** `hex2ab(ab2hex(b))` is `b` for every non-empty buffer; for the empty
      buffer `ab2hex` gives "" and `hex2ab("")` throws. */
  lemma RoundTrip(b: seq<byte>)
    ensures |b| > 0 ==> Hex2ab(Ab2hex(b)) == Success(b)
    ensures |b| == 0 ==> Hex2ab(Ab2hex(b)) == Failure(NullMatch)
  {
    MatchesOfAb2hex(b);
  }

  /** `ab2hex(b)` is the only text of length 2|b| that holds, at 2i and
      2i+1, the digits of byte i's high and low nibble. */
  lemma Ab2hexUnique(b: seq<byte>, s: string)
    requires |s| == 2 * |b|
    requires forall i :: 0 <= i < |b| ==> s[2 * i] == Digit(b[i] / 16) && s[2 * i + 1] == Digit(b[i] % 16)
    ensures Ab2hex(b) == s
  {
    var h := Ab2hex(b);
    forall j | 0 <= j < |s| ensures h[j] == s[j] {
      var i := j / 2;
      assert j == 2 * i || j == 2 * i + 1;
      assert 0 <= i < |b|;
      assert h[2 * i] == s[2 * i] && h[2 * i + 1] == s[2 * i + 1];
    }
  }

  /** `ab2hex` of a concatenation is the concatenation of the texts. */
  lemma {:induction false} Ab2hexAppend(a: seq<byte>, b: seq<byte>)
    ensures Ab2hex(a + b) == Ab2hex(a) + Ab2hex(b)
  {
    if |a| > 0 {
      assert (a + b)[1..] == a[1..] + b;
      Ab2hexAppend(a[1..], b);
      assert (a + b)[0] == a[0];
      assert Ab2hex(a + b) == ByteToHex(a[0]) + Ab2hex(a[1..] + b);
      assert Ab2hex(a) == ByteToHex(a[0]) + Ab2hex(a[1..]);
    } else {
      assert a + b == b;
    }
  }

  // ---------------------------------------------------------------------
  // When hex2ab throws
  // ---------------------------------------------------------------------

  /** Some position holds two adjacent hex digits. */
  predicate HasHexPair(s: string) {
    exists i :: 0 <= i < |s| - 1 && IsHexDigit(s[i]) && IsHexDigit(s[i + 1])
  }

  /** The scan finds nothing exactly when no two adjacent characters are
      hex digits. */
  lemma {:induction false} MatchesEmptyIff(s: string)
    ensures Matches(s) == [] <==> !HasHexPair(s)
    decreases |s|
  {
    if |s| < 2 {
    } else if IsHexDigit(s[0]) && IsHexDigit(s[1]) {
      assert IsHexDigit(s[0]) && IsHexDigit(s[0 + 1]);
    } else {
      MatchesEmptyIff(s[1..]);
      if HasHexPair(s) {
        var i :| 0 <= i < |s| - 1 && IsHexDigit(s[i]) && IsHexDigit(s[i + 1]);
        assert i >= 1;
        assert IsHexDigit(s[1..][i - 1]) && IsHexDigit(s[1..][i - 1 + 1]);
      }
      if HasHexPair(s[1..]) {
        var i :| 0 <= i < |s[1..]| - 1 && IsHexDigit(s[1..][i]) && IsHexDigit(s[1..][i + 1]);
        assert IsHexDigit(s[i + 1]) && IsHexDigit(s[i + 1 + 1]);
      }
    }
  }

  /** `hex2ab` throws exactly when its input has no two adjacent hex
      digits; in particular on the empty string. */
  lemma Hex2abFailsIff(hex: string)
    ensures Hex2ab(hex).Failure? <==> !HasHexPair(hex)
  {
    MatchesEmptyIff(hex);
  }

  // ---------------------------------------------------------------------
  // Case-insensitivity
  // ---------------------------------------------------------------------

  /** Lower-cases the hex letters `A-F` and leaves every other character. */
  function FoldHex(c: char): (f: char)
    ensures IsHexDigit(f) <==> IsHexDigit(c)
    ensures IsHexDigit(c) ==> HexValue(f) == HexValue(c)
  {
    if 'A' <= c <= 'F' then (c as int + 32) as char else c
  }

  /** `s` and `t` differ at most in the case of hex letters. */
  predicate SameUpToHexCase(s: string, t: string) {
    |s| == |t| && forall i :: 0 <= i < |s| ==> FoldHex(s[i]) == FoldHex(t[i])
  }

  /** Strings that differ only in the case of hex letters scan to pieces of
      the same count and the same values. */
  lemma {:induction false} MatchesUpToHexCase(s: string, t: string)
    requires SameUpToHexCase(s, t)
    ensures |Matches(s)| == |Matches(t)|
    ensures ParseAll(Matches(s)) == ParseAll(Matches(t))
    decreases |s|
  {
    if |s| >= 2 {
      assert FoldHex(s[0]) == FoldHex(t[0]) && FoldHex(s[1]) == FoldHex(t[1]);
      if IsHexDigit(s[0]) && IsHexDigit(s[1]) {
        assert SameUpToHexCase(s[2..], t[2..]) by {
          forall i | 0 <= i < |s[2..]| ensures FoldHex(s[2..][i]) == FoldHex(t[2..][i]) {
            assert s[2..][i] == s[i + 2] && t[2..][i] == t[i + 2];
          }
        }
        MatchesUpToHexCase(s[2..], t[2..]);
        var ms, mt := Matches(s), Matches(t);
        assert ms[1..] == Matches(s[2..]) && mt[1..] == Matches(t[2..]);
        assert ParsePair(ms[0]) == ParsePair(mt[0]);
        assert ParseAll(ms) == [ParsePair(ms[0])] + ParseAll(ms[1..]);
        assert ParseAll(mt) == [ParsePair(mt[0])] + ParseAll(mt[1..]);
      } else {
        assert SameUpToHexCase(s[1..], t[1..]) by {
          forall i | 0 <= i < |s[1..]| ensures FoldHex(s[1..][i]) == FoldHex(t[1..][i]) {
            assert s[1..][i] == s[i + 1] && t[1..][i] == t[i + 1];
          }
        }
        MatchesUpToHexCase(s[1..], t[1..]);
      }
    }
  }

  /** `hex2ab` ignores the case of hex letters. */
  lemma Hex2abIgnoresCase(s: string, t: string)
    requires SameUpToHexCase(s, t)
    ensures Hex2ab(s) == Hex2ab(t)
  {
    MatchesUpToHexCase(s, t);
  }

  /** The other case of a hex letter; any other character is unchanged. */
  function SwapHexCase(c: char): (d: char)
    ensures FoldHex(d) == FoldHex(c)
  {
    if 'A' <= c <= 'F' then (c as int + 32) as char
    else if 'a' <= c <= 'f' then (c as int - 32) as char
    else c
  }

  /** Switching the case of the hex letter at any one position leaves the
      output of `hex2ab` unchanged. */
  lemma Hex2abSwapCaseAt(s: string, p: nat)
    requires p < |s|
    ensures Hex2ab(s[p := SwapHexCase(s[p])]) == Hex2ab(s)
  {
    Hex2abIgnoresCase(s[p := SwapHexCase(s[p])], s);
  }

  // ---------------------------------------------------------------------
  // Separators
  // ---------------------------------------------------------------------

  /** A character that is not a hex digit cuts the scan in two: the pieces
      on either side are found independently. */
  lemma {:induction false} MatchesAcrossSeparator(a: string, c: char, b: string)
    requires !IsHexDigit(c)
    ensures Matches(a + [c] + b) == Matches(a) + Matches(b)
    decreases |a|
  {
    var s := a + [c] + b;
    if |a| == 0 {
      assert s[1..] == b;
    } else if |a| == 1 {
      assert s[1..] == [c] + b;
      assert ([c] + b)[1..] == b;
    } else if IsHexDigit(a[0]) && IsHexDigit(a[1]) {
      assert s[..2] == a[..2];
      assert s[2..] == a[2..] + [c] + b;
      MatchesAcrossSeparator(a[2..], c, b);
    } else {
      assert s[1..] == a[1..] + [c] + b;
      MatchesAcrossSeparator(a[1..], c, b);
    }
  }

  /** Hex text of two buffers joined by a separator decodes to the two
      buffers joined, so `hex2ab` reads "2b:65:70" like "2b6570". */
  lemma Hex2abJoinedBySeparator(x: seq<byte>, c: char, y: seq<byte>)
    requires !IsHexDigit(c)
    requires |x| + |y| > 0
    ensures Hex2ab(Ab2hex(x) + [c] + Ab2hex(y)) == Success(x + y)
  {
    MatchesAcrossSeparator(Ab2hex(x), c, Ab2hex(y));
    MatchesOfAb2hex(x);
    MatchesOfAb2hex(y);
    ParseAllAppend(Matches(Ab2hex(x)), Matches(Ab2hex(y)));
  }

  lemma ParseAllAppend(m1: seq<string>, m2: seq<string>)
    requires forall i :: 0 <= i < |m1| ==> IsHexPair(m1[i])
    requires forall i :: 0 <= i < |m2| ==> IsHexPair(m2[i])
    ensures ParseAll(m1 + m2) == ParseAll(m1) + ParseAll(m2)
  {
  }

  // ---------------------------------------------------------------------
  // Examples
  // ---------------------------------------------------------------------

  /** An odd trailing digit is dropped, and the scan resumes after a
      pair rather than inside it. */
  lemma ExampleOddLength()
    ensures Hex2ab("abc") == Success([0xab])
    ensures Hex2ab("a1b") == Success([0xa1])
  {
    assert "abc"[..2] == "ab" && "abc"[2..] == "c";
    assert Matches("abc") == ["ab"];
    assert ParseAll(["ab"]) == [ParsePair("ab")];
    assert "a1b"[..2] == "a1" && "a1b"[2..] == "b";
    assert Matches("a1b") == ["a1"];
    assert ParseAll(["a1"]) == [ParsePair("a1")];
  }

  /** Separators are skipped and upper-case digits are read. */
  lemma ExampleSeparator()
    ensures Hex2ab("0A:ff") == Success([0x0a, 0xff])
  {
    assert "0A:ff"[..2] == "0A" && "0A:ff"[2..] == ":ff";
    assert ":ff"[1..] == "ff" && "ff"[..2] == "ff" && "ff"[2..] == "";
    assert Matches("0A:ff") == ["0A", "ff"];
    assert ParseAll(["0A", "ff"]) == [ParsePair("0A"), ParsePair("ff")];
  }

  /** Text without two adjacent hex digits throws, the empty string too. */
  lemma ExampleNoPair()
    ensures Hex2ab("") == Failure(NullMatch)
    ensures Hex2ab("a-b-c") == Failure(NullMatch)
    ensures Hex2ab("zz") == Failure(NullMatch)
  {
  }
}
