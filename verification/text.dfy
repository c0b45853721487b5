/** String operations the merge code relies on: Python's `str.lower`,
    the `in` substring test, `startswith`/`endswith` and `str.join`. */
module Text {

  /** `str.lower` on one character. Only A-Z are folded: every keyword the
      code searches for is plain ASCII, so no other folding can create or
      destroy a match. */
  function LowerChar(c: char): char
  {
    if 'A' <= c <= 'Z' then (c as int + 32) as char else c
  }

  /** `str.lower`: every capital becomes its lower-case letter, no capital
      letter survives, and every other character stays where it was. */
  function Lower(s: string): (r: string)
    ensures |r| == |s|
    ensures forall i :: 0 <= i < |r| ==> !('A' <= r[i] <= 'Z')
    ensures forall i :: 0 <= i < |s| && 'A' <= s[i] <= 'Z' ==> r[i] == (s[i] as int + 32) as char
    ensures forall i :: 0 <= i < |r| && !('A' <= s[i] <= 'Z') ==> r[i] == s[i]
  {
    seq(|s|, i requires 0 <= i < |s| => LowerChar(s[i]))
  }

  /** Lower-casing twice is lower-casing once, so a lower-cased name
      compares like the original. */
  lemma LowerIdempotent(s: string)
    ensures Lower(Lower(s)) == Lower(s)
  {
  }

  /** The meaning of Python's `needle in hay` for two strings. */
  ghost predicate IsInfix(needle: string, hay: string)
  {
    exists i :: InfixAt(needle, hay, i)
  }

  /** `needle` occurs in `hay` starting at position `i`. */
  predicate InfixAt(needle: string, hay: string, i: int)
  {
    0 <= i <= |hay| - |needle| && hay[i..i + |needle|] == needle
  }

  /** The executable scan for `needle in hay`: try every start position in turn. */
  function Contains(hay: string, needle: string): bool
    decreases |hay|
  {
    if |hay| < |needle| then false
    else if hay[..|needle|] == needle then true
    else Contains(hay[1..], needle)
  }

  lemma {:induction false} ContainsIsInfix(hay: string, needle: string)
    ensures Contains(hay, needle) <==> IsInfix(needle, hay)
    decreases |hay|
  {
    if |hay| < |needle| {
    } else if hay[..|needle|] == needle {
      assert InfixAt(needle, hay, 0);
    } else {
      ContainsIsInfix(hay[1..], needle);
      if IsInfix(needle, hay[1..]) {
        var i :| InfixAt(needle, hay[1..], i);
        SliceOfTail(hay, i, |needle|);
        assert InfixAt(needle, hay, i + 1);
      }
      if IsInfix(needle, hay) {
        var i :| InfixAt(needle, hay, i);
        assert i != 0;
        SliceOfTail(hay, i - 1, |needle|);
        assert InfixAt(needle, hay[1..], i - 1);
      }
    }
  }

  lemma SliceOfTail<T>(s: seq<T>, i: nat, n: nat)
    requires 1 + i + n <= |s|
    ensures s[1..][i..i + n] == s[i + 1..i + 1 + n]
  {
  }

  /** A needle that holds a character the haystack lacks is not in it. */
  lemma MissingCharNotInfix(hay: string, needle: string, c: char)
    requires c in needle && c !in hay
    ensures !IsInfix(needle, hay)
  {
    var k :| 0 <= k < |needle| && needle[k] == c;
    forall i | 0 <= i <= |hay| - |needle|
      ensures !InfixAt(needle, hay, i)
    {
      assert hay[i..i + |needle|][k] == hay[i + k] != c;
    }
  }

  predicate StartsWith(s: string, prefix: string)
  {
    |prefix| <= |s| && s[..|prefix|] == prefix
  }

  predicate EndsWith(s: string, suffix: string)
  {
    |suffix| <= |s| && s[|s| - |suffix|..] == suffix
  }

  /** `sep.join(parts)`. */
  function Join(sep: string, parts: seq<string>): string
  {
    if |parts| == 0 then ""
    else if |parts| == 1 then parts[0]
    else parts[0] + sep + Join(sep, parts[1..])
  }

  /** Joining pieces that are each non-empty gives the empty string exactly
      when there are no pieces. */
  lemma JoinEmptyIff(sep: string, parts: seq<string>)
    requires forall k :: 0 <= k < |parts| ==> parts[k] != ""
    ensures Join(sep, parts) == "" <==> |parts| == 0
  {
    if |parts| > 1 {
      assert Join(sep, parts)[..|parts[0]|] == parts[0];
    }
  }

  /** Every piece appears, verbatim, inside the joined string. */
  lemma {:induction false} JoinContainsPart(sep: string, parts: seq<string>, k: nat)
    requires k < |parts|
    ensures IsInfix(parts[k], Join(sep, parts))
    decreases |parts|
  {
    var j := Join(sep, parts);
    if |parts| == 1 {
      assert InfixAt(parts[k], j, 0);
    } else if k == 0 {
      assert j == parts[0] + (sep + Join(sep, parts[1..]));
      assert InfixAt(parts[k], j, 0);
    } else {
      JoinContainsPart(sep, parts[1..], k - 1);
      var rest := Join(sep, parts[1..]);
      var i :| InfixAt(parts[1..][k - 1], rest, i);
      var off := |parts[0]| + |sep|;
      assert j == parts[0] + sep + rest;
      assert j[off + i..off + i + |parts[k]|] == rest[i..i + |parts[k]|];
      assert InfixAt(parts[k], j, off + i);
    }
  }

  /** Joining two runs of pieces: the runs' joins, with one separator
      between them when both are non-empty. */
  lemma {:induction false} JoinAppend(sep: string, a: seq<string>, b: seq<string>)
    ensures Join(sep, a + b) ==
      if |a| == 0 then Join(sep, b)
      else if |b| == 0 then Join(sep, a)
      else Join(sep, a) + sep + Join(sep, b)
    decreases |a|
  {
    if |a| == 0 {
      assert a + b == b;
    } else if |b| == 0 {
      assert a + b == a;
    } else if |a| == 1 {
      assert (a + b)[1..] == b;
    } else {
      assert (a + b)[1..] == a[1..] + b;
      JoinAppend(sep, a[1..], b);
    }
  }
}
