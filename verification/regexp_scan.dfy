/** `String.prototype.match` with the global pattern `/[\da-f]{2}/gi`, written
    the way the regular-expression engine runs it (the
    `RegExp.prototype[@@match]` algorithm of ECMA-262): repeated executions from
    `lastIndex`, each of which tries successive start positions, collecting
    the matched text, and `null` when nothing matched at all. */
module RegExpScan {
  import opened HexCodec
  import opened HexLemmas

  /** What `match` returns: `null`, or the array of matched substrings. */
  datatype MatchResult = Null | Array(items: seq<string>)

  /** One pattern execution failing at position `p` lets the next one start
      at `p + 1` without losing any match. */
  lemma SkipNonPair(s: string, p: nat)
    requires p + 1 < |s|
    requires !(IsHexDigit(s[p]) && IsHexDigit(s[p + 1]))
    ensures Matches(s[p..]) == Matches(s[p + 1..])
  {
    assert s[p..][0] == s[p] && s[p..][1] == s[p + 1];
    assert s[p..][1..] == s[p + 1..];
  }

  /** A match at `p` is the pair there followed by the matches after it. */
  lemma TakePair(s: string, p: nat)
    requires p + 1 < |s|
    requires IsHexDigit(s[p]) && IsHexDigit(s[p + 1])
    ensures Matches(s[p..]) == [s[p..p + 2]] + Matches(s[p + 2..])
  {
    assert s[p..][0] == s[p] && s[p..][1] == s[p + 1];
    assert s[p..][..2] == s[p..p + 2];
    assert s[p..][2..] == s[p + 2..];
  }

  /** The engine's global match agrees with the left-to-right scanning rule
      and returns `null` exactly when no two adjacent characters are hex
      digits. */
  method GlobalMatch(s: string) returns (r: MatchResult)
    ensures r.Array? <==> HasHexPair(s)
    ensures r.Array? ==> r.items == Matches(s)
  {
    var lastIndex := 0;
    var items: seq<string> := [];
    while true
      invariant 0 <= lastIndex <= |s|
      invariant items + Matches(s[lastIndex..]) == Matches(s)
      decreases |s| - lastIndex
    {
      // One execution: advance the start position until a pair begins there.
      var p := lastIndex;
      while p + 1 < |s| && !(IsHexDigit(s[p]) && IsHexDigit(s[p + 1]))
        invariant lastIndex <= p <= |s|
        invariant Matches(s[p..]) == Matches(s[lastIndex..])
      {
        SkipNonPair(s, p);
        p := p + 1;
      }
      if p + 1 >= |s| {
        assert Matches(s[p..]) == [];
        break;
      }
      TakePair(s, p);
      items := items + [s[p..p + 2]];
      lastIndex := p + 2;
    }
    assert s[..] == s;
    MatchesEmptyIff(s);
    if |items| == 0 {
      r := Null;
    } else {
      r := Array(items);
    }
  }
}
