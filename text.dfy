/** The string primitives the table parser relies on: `String.prototype.trim`,
    `String.prototype.split` with a one-character separator, and `startsWith`.
    Strings are sequences of characters; the code units these functions
    look at (white space, `|` and line breaks) are single characters. */
module Text {

  /** The code units `trim` removes: ECMAScript's WhiteSpace (tab, vertical tab,
      form feed, space, no-break space, zero-width no-break space and the
      space separators of category Zs) and its LineTerminator set. */
  predicate IsWhitespace(c: char) {
    var n := c as int;
    n == 0x09 || n == 0x0A || n == 0x0B || n == 0x0C || n == 0x0D || n == 0x20
    || n == 0xA0 || n == 0x1680 || (0x2000 <= n <= 0x200A) || n == 0x2028
    || n == 0x2029 || n == 0x202F || n == 0x205F || n == 0x3000 || n == 0xFEFF
  }

  /** Neither end of `s` is whitespace. */
  predicate IsTrimmed(s: string) {
    s == [] || (!IsWhitespace(s[0]) && !IsWhitespace(s[|s| - 1]))
  }

  /** How many whitespace code units `s` starts with. */
  function LeadingWhitespace(s: string): (n: nat)
    ensures n <= |s|
  {
    if s != [] && IsWhitespace(s[0]) then 1 + LeadingWhitespace(s[1..]) else 0
  }

  /** How many whitespace code units `s` ends with. */
  function TrailingWhitespace(s: string): (n: nat)
    ensures n <= |s|
  {
    if s != [] && IsWhitespace(s[|s| - 1]) then 1 + TrailingWhitespace(s[..|s| - 1]) else 0
  }

  /** `LeadingWhitespace` counts the whole run of leading whitespace and no more. */
  lemma {:induction false} LeadingWhitespaceRun(s: string)
    ensures forall k :: 0 <= k < LeadingWhitespace(s) ==> IsWhitespace(s[k])
    ensures LeadingWhitespace(s) < |s| ==> !IsWhitespace(s[LeadingWhitespace(s)])
  {
    if s != [] && IsWhitespace(s[0]) {
      LeadingWhitespaceRun(s[1..]);
      forall k | 1 <= k < LeadingWhitespace(s)
        ensures IsWhitespace(s[k])
      {
        assert s[k] == s[1..][k - 1];
      }
    }
  }

  /** `TrailingWhitespace` counts the whole run of trailing whitespace and no more. */
  lemma {:induction false} TrailingWhitespaceRun(s: string)
    ensures forall k :: |s| - TrailingWhitespace(s) <= k < |s| ==> IsWhitespace(s[k])
    ensures TrailingWhitespace(s) < |s| ==> !IsWhitespace(s[|s| - 1 - TrailingWhitespace(s)])
  {
    if s != [] && IsWhitespace(s[|s| - 1]) {
      TrailingWhitespaceRun(s[..|s| - 1]);
    }
  }

  /** `s.trim()`: drops the leading and the trailing whitespace. */
  function Trim(s: string): (r: string)
    ensures IsTrimmed(r)
  {
    var a := LeadingWhitespace(s);
    var t := s[a..];
    LeadingWhitespaceRun(s);
    TrailingWhitespaceRun(t);
    t[..|t| - TrailingWhitespace(t)]
  }

  /** `Trim(s)` is the infix of `s` left after dropping whitespace, and only
      whitespace, from both ends. */
  lemma TrimIsInfix(s: string)
    ensures var a, r := LeadingWhitespace(s), Trim(s);
      a + |r| <= |s| && r == s[a..a + |r|]
      && (forall k :: 0 <= k < a ==> IsWhitespace(s[k]))
      && (forall k :: a + |r| <= k < |s| ==> IsWhitespace(s[k]))
  {
    var a := LeadingWhitespace(s);
    LeadingWhitespaceRun(s);
    TrimEndOfSuffix(s, a);
  }

  /** Dropping the trailing whitespace of the suffix `s[a..]` leaves an
      infix of `s` followed by whitespace only. */
  lemma TrimEndOfSuffix(s: string, a: nat)
    requires a <= |s|
    ensures var t := s[a..]; var m := |t| - TrailingWhitespace(t);
      a + m <= |s| && t[..m] == s[a..a + m]
      && forall k :: a + m <= k < |s| ==> IsWhitespace(s[k])
  {
    var t := s[a..];
    TrailingWhitespaceRun(t);
    forall k | a + |t| - TrailingWhitespace(t) <= k < |s|
      ensures IsWhitespace(s[k])
    {
      assert s[k] == t[k - a];
    }
  }

  /** Trimming a string that is already trimmed changes nothing; in
      particular trimming is idempotent. */
  lemma TrimOfTrimmed(s: string)
    requires IsTrimmed(s)
    ensures Trim(s) == s
  {
    assert LeadingWhitespace(s) == 0;
    assert s[0..] == s;
  }

  /** Trimming keeps only characters of the input. */
  lemma TrimKeeps(s: string, c: char)
    requires c in Trim(s)
    ensures c in s
  {
    TrimIsInfix(s);
    var a, r := LeadingWhitespace(s), Trim(s);
    var k :| 0 <= k < |r| && r[k] == c;
    assert s[a + k] == c;
  }

  /** `s.split(sep)` for a one-character separator: the pieces between the
      occurrences of `sep`; there is always at least one ("" splits into [""]). */
  function Split(s: string, sep: char): (parts: seq<string>)
    ensures |parts| >= 1
  {
    if s == [] then [[]]
    else
      var rest := Split(s[1..], sep);
      if s[0] == sep then [[]] + rest
      else [[s[0]] + rest[0]] + rest[1..]
  }

  /** No piece of a split contains the separator, and joining the pieces with
      the separator gives the input back. */
  lemma {:induction false} JoinSplit(s: string, sep: char)
    ensures forall k :: 0 <= k < |Split(s, sep)| ==> sep !in Split(s, sep)[k]
    ensures Join(Split(s, sep), sep) == s
  {
    if s != [] {
      var rest := Split(s[1..], sep);
      JoinSplit(s[1..], sep);
      if s[0] == sep {
        assert [[]] + rest == [[]] + rest[..1] + rest[1..];
      } else {
        var parts := [[s[0]] + rest[0]] + rest[1..];
        assert |rest| > 1 ==> Join(rest, sep) == rest[0] + [sep] + Join(rest[1..], sep);
        assert parts[1..] == rest[1..];
      }
    }
  }

  /** `parts.join(sep)`, the inverse of `Split`. */
  function Join(parts: seq<string>, sep: char): string
  {
    if parts == [] then []
    else if |parts| == 1 then parts[0]
    else parts[0] + [sep] + Join(parts[1..], sep)
  }

  /** A piece without the separator splits into itself. */
  lemma {:induction false} SplitPiece(p: string, sep: char)
    requires sep !in p
    ensures Split(p, sep) == [p]
  {
    if p != [] {
      SplitPiece(p[1..], sep);
      assert [p[0]] + p[1..] == p;
    }
  }

  /** Splitting after a piece without the separator yields that piece first. */
  lemma {:induction false} SplitAfterPiece(p: string, sep: char, t: string)
    requires sep !in p
    ensures Split(p + [sep] + t, sep) == [p] + Split(t, sep)
  {
    if p == [] {
      assert p + [sep] + t == [sep] + t;
      assert ([sep] + t)[1..] == t;
    } else {
      SplitAfterPiece(p[1..], sep, t);
      assert (p + [sep] + t)[1..] == p[1..] + [sep] + t;
      assert [p[0]] + p[1..] == p;
    }
  }

  /** Splitting undoes joining, for any non-empty list of pieces that do not
      contain the separator. */
  lemma {:induction false} SplitJoin(parts: seq<string>, sep: char)
    requires |parts| >= 1
    requires forall k :: 0 <= k < |parts| ==> sep !in parts[k]
    ensures Split(Join(parts, sep), sep) == parts
  {
    if |parts| == 1 {
      SplitPiece(parts[0], sep);
    } else {
      SplitJoin(parts[1..], sep);
      SplitAfterPiece(parts[0], sep, Join(parts[1..], sep));
      assert [parts[0]] + parts[1..] == parts;
    }
  }

  /** `s.startsWith(prefix)`. */
  predicate StartsWith(s: string, prefix: string) {
    |prefix| <= |s| && s[..|prefix|] == prefix
  }
}
