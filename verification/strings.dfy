/** String helpers the tag engine is built from: ASCII case folding,
    splitting and joining on one separator character, substring replacement,
    right-to-left search and decimal rendering of version numbers. */
module Strings {
  import opened Wrappers

  predicate IsUpper(c: char) {
    'A' <= c <= 'Z'
  }

  function LowerChar(c: char): (r: char)
    ensures !IsUpper(r)
    ensures !IsUpper(c) ==> r == c
  {
    if IsUpper(c) then (c as int + 32) as char else c
  }

  /** No character of `s` is an upper-case letter. */
  predicate IsLower(s: string) {
    forall i :: 0 <= i < |s| ==> !IsUpper(s[i])
  }

  /** `str.lower()`, restricted to ASCII letters. */
  function Lower(s: string): (r: string)
    ensures |r| == |s|
    ensures IsLower(r)
    ensures forall i :: 0 <= i < |s| ==> r[i] == LowerChar(s[i])
  {
    seq(|s|, i requires 0 <= i < |s| => LowerChar(s[i]))
  }

  /** Lower-casing leaves an already lower-case string alone, so it is idempotent. */
  lemma LowerOfLower(s: string)
    requires IsLower(s)
    ensures Lower(s) == s
  {
  }

  predicate EqualIgnoringCase(a: string, b: string) {
    Lower(a) == Lower(b)
  }

  predicate StartsWith(s: string, prefix: string) {
    |prefix| <= |s| && s[..|prefix|] == prefix
  }

  /** Number of occurrences of `c` in `s`. */
  function Count(s: string, c: char): nat
  {
    if |s| == 0 then 0 else (if s[0] == c then 1 else 0) + Count(s[1..], c)
  }

  lemma {:induction false} CountConcat(a: string, b: string, c: char)
    ensures Count(a + b, c) == Count(a, c) + Count(b, c)
  {
    if |a| == 0 {
      assert a + b == b;
    } else {
      assert (a + b)[1..] == a[1..] + b;
      CountConcat(a[1..], b, c);
    }
  }

  lemma {:induction false} CountZero(s: string, c: char)
    ensures Count(s, c) == 0 <==> c !in s
  {
    if |s| > 0 {
      CountZero(s[1..], c);
      assert s == [s[0]] + s[1..];
    }
  }

  /** `s.split(sep)` for a one-character separator: `k` separators give
      `k + 1` pieces, none of which contains the separator. */
  function Split(s: string, sep: char): (r: seq<string>)
    ensures |r| == Count(s, sep) + 1
    ensures forall k :: 0 <= k < |r| ==> sep !in r[k]
  {
    if |s| == 0 then [""]
    else
      var rest := Split(s[1..], sep);
      if s[0] == sep then [""] + rest
      else [[s[0]] + rest[0]] + rest[1..]
  }

  /** A character absent from `s` is absent from every piece of its split. */
  lemma {:induction false} SplitPiecesAvoid(s: string, sep: char, c: char)
    requires c !in s
    ensures forall k :: 0 <= k < |Split(s, sep)| ==> c !in Split(s, sep)[k]
  {
    if |s| > 0 {
      SplitPiecesAvoid(s[1..], sep, c);
    }
  }

  /** `sep.join(pieces)`. */
  function Join(pieces: seq<string>, sep: char): string
  {
    if |pieces| == 0 then ""
    else if |pieces| == 1 then pieces[0]
    else pieces[0] + [sep] + Join(pieces[1..], sep)
  }

  lemma {:induction false} SplitNoSeparator(s: string, sep: char)
    requires sep !in s
    ensures Split(s, sep) == [s]
  {
    if |s| > 0 {
      SplitNoSeparator(s[1..], sep);
      assert [s[0]] + s[1..] == s;
    }
  }

  /** Splitting a piece that has no separator, then a separator, then the rest. */
  lemma {:induction false} SplitAfterPiece(a: string, sep: char, b: string)
    requires sep !in a
    ensures Split(a + [sep] + b, sep) == [a] + Split(b, sep)
  {
    var s := a + [sep] + b;
    if |a| == 0 {
      assert s == [sep] + b;
      assert s[1..] == b;
    } else {
      assert s[0] == a[0];
      assert s[1..] == a[1..] + [sep] + b;
      SplitAfterPiece(a[1..], sep, b);
      assert [a[0]] + a[1..] == a;
    }
  }

  /** Joining the pieces of a split gives back the original string. */
  lemma {:induction false} JoinSplit(s: string, sep: char)
    ensures Join(Split(s, sep), sep) == s
  {
    if |s| > 0 {
      var rest := Split(s[1..], sep);
      JoinSplit(s[1..], sep);
      if s[0] == sep {
        assert Split(s, sep) == [""] + rest;
        assert ([""] + rest)[1..] == rest;
        assert s == [sep] + s[1..];
      } else {
        var r := Split(s, sep);
        assert r == [[s[0]] + rest[0]] + rest[1..];
        if |rest| == 1 {
          assert s == [s[0]] + rest[0];
        } else {
          assert r[1..] == rest[1..];
          assert Join(rest, sep) == rest[0] + [sep] + Join(rest[1..], sep);
          assert s == [s[0]] + s[1..];
        }
      }
    }
  }

  /** Splitting a join of separator-free pieces gives back the pieces. */
  lemma {:induction false} SplitJoin(pieces: seq<string>, sep: char)
    requires |pieces| >= 1
    requires forall k :: 0 <= k < |pieces| ==> sep !in pieces[k]
    ensures Split(Join(pieces, sep), sep) == pieces
  {
    if |pieces| == 1 {
      SplitNoSeparator(pieces[0], sep);
    } else {
      SplitJoin(pieces[1..], sep);
      SplitAfterPiece(pieces[0], sep, Join(pieces[1..], sep));
      assert [pieces[0]] + pieces[1..] == pieces;
    }
  }

  /** `s.replace(c, d)` for single characters. */
  function ReplaceChar(s: string, c: char, d: char): (r: string)
    ensures |r| == |s|
    ensures forall i :: 0 <= i < |s| ==> r[i] == if s[i] == c then d else s[i]
  {
    seq(|s|, i requires 0 <= i < |s| => if s[i] == c then d else s[i])
  }

  /** `s.replace(pat, rep)`: every occurrence of `pat`, scanning left to
      right without overlap, is replaced by `rep`. */
  function ReplaceAll(s: string, pat: string, rep: string): (r: string)
    requires |pat| > 0
    ensures rep == pat ==> r == s
    ensures |rep| == |pat| ==> |r| == |s|
    decreases |s|
  {
    if |s| < |pat| then s
    else if s[..|pat|] == pat then rep + ReplaceAll(s[|pat|..], pat, rep)
    else [s[0]] + ReplaceAll(s[1..], pat, rep)
  }

  /** A string that never contains the first character of `pat` is left unchanged. */
  lemma {:induction false} ReplaceAllAbsent(s: string, pat: string, rep: string)
    requires |pat| > 0
    requires pat[0] !in s
    ensures ReplaceAll(s, pat, rep) == s
    decreases |s|
  {
    if |s| >= |pat| {
      assert s[..|pat|][0] == s[0];
      ReplaceAllAbsent(s[1..], pat, rep);
      assert [s[0]] + s[1..] == s;
    }
  }

  /** `pat` occurs in `s` starting at position `k`. */
  predicate OccursAt(s: string, pat: string, k: nat) {
    k + |pat| <= |s| && s[k..k + |pat|] == pat
  }

  /** Python's `pat in s`, scanning from the left. */
  predicate Contains(s: string, pat: string)
    decreases |s|
  {
    |pat| <= |s| && (s[..|pat|] == pat || Contains(s[1..], pat))
  }

  /** `Contains` holds exactly when `pat` occurs at some position. */
  lemma {:induction false} ContainsOccursAt(s: string, pat: string)
    ensures Contains(s, pat) <==> exists k: nat :: OccursAt(s, pat, k)
    decreases |s|
  {
    if |pat| <= |s| {
      assert s[0..|pat|] == s[..|pat|];
      if s[..|pat|] != pat {
        ContainsOccursAt(s[1..], pat);
        if Contains(s, pat) {
          var k: nat :| OccursAt(s[1..], pat, k);
          assert s[1..][k..k + |pat|] == s[k + 1..k + 1 + |pat|];
          assert OccursAt(s, pat, k + 1);
        } else {
          forall k: nat | OccursAt(s, pat, k)
            ensures false
          {
            assert k > 0;
            assert s[1..][k - 1..k - 1 + |pat|] == s[k..k + |pat|];
            assert OccursAt(s[1..], pat, k - 1);
          }
        }
      } else {
        assert OccursAt(s, pat, 0);
      }
    }
  }

  /** A string in which `pat` occurs nowhere is left unchanged. */
  lemma {:induction false} ReplaceAllNoOccurrence(s: string, pat: string, rep: string)
    requires |pat| > 0
    requires !Contains(s, pat)
    ensures ReplaceAll(s, pat, rep) == s
    decreases |s|
  {
    if |s| >= |pat| {
      ReplaceAllNoOccurrence(s[1..], pat, rep);
      assert [s[0]] + s[1..] == s;
    }
  }

  /** Where some character of `pat` is missing, `pat` occurs nowhere. */
  lemma NoOccurrenceWithout(s: string, pat: string, j: nat)
    requires j < |pat| && pat[j] !in s
    ensures !Contains(s, pat)
  {
    forall k: nat | k + |pat| <= |s|
      ensures !OccursAt(s, pat, k)
    {
      assert s[k..k + |pat|][j] == s[k + j];
    }
    ContainsOccursAt(s, pat);
  }

  /** Where `pat` does not start, the first character is kept and the
      scan moves on by one. */
  lemma ReplaceAllSkip(s: string, pat: string, rep: string)
    requires |pat| > 0
    requires |s| > 0 && !OccursAt(s, pat, 0)
    ensures ReplaceAll(s, pat, rep) == [s[0]] + ReplaceAll(s[1..], pat, rep)
  {
    if |s| >= |pat| {
      assert s[0..|pat|] == s[..|pat|];
    } else {
      assert !Contains(s[1..], pat);
      ReplaceAllNoOccurrence(s[1..], pat, rep);
      assert [s[0]] + s[1..] == s;
    }
  }

  /** A leading occurrence is replaced and the rest is processed on its own. */
  lemma ReplaceAllPrefix(pat: string, rest: string, rep: string)
    requires |pat| > 0
    ensures ReplaceAll(pat + rest, pat, rep) == rep + ReplaceAll(rest, pat, rep)
  {
    assert (pat + rest)[..|pat|] == pat;
    assert (pat + rest)[|pat|..] == rest;
  }

  /** `s.rindex(c, 0, hi)`: the last position before `hi` holding `c`, or
      `None` where Python raises `ValueError`. */
  function RIndex(s: string, c: char, hi: nat): (r: Option<nat>)
    requires hi <= |s|
    ensures r.Some? ==> r.value < hi && s[r.value] == c && c !in s[r.value + 1..hi]
    ensures r.None? <==> c !in s[..hi]
    decreases hi
  {
    if hi == 0 then None
    else if s[hi - 1] == c then Some(hi - 1)
    else
      var r := RIndex(s, c, hi - 1);
      assert s[..hi] == s[..hi - 1] + [s[hi - 1]];
      assert r.Some? ==> s[r.value + 1..hi] == s[r.value + 1..hi - 1] + [s[hi - 1]];
      r
  }

  /** A search that starts above a stretch free of `c` finds what a search
      starting below that stretch finds. */
  lemma {:induction false} RIndexSkip(s: string, c: char, lo: nat, hi: nat)
    requires lo <= hi <= |s|
    requires c !in s[lo..hi]
    ensures RIndex(s, c, hi) == RIndex(s, c, lo)
    decreases hi
  {
    if hi > lo {
      NotInShorter(s, c, lo, hi);
      RIndexStep(s, c, hi);
      RIndexSkip(s, c, lo, hi - 1);
    }
  }

  /** A stretch free of `c` stays free of it without its last character. */
  lemma NotInShorter(s: string, c: char, lo: nat, hi: nat)
    requires lo < hi <= |s|
    requires c !in s[lo..hi]
    ensures s[hi - 1] != c && c !in s[lo..hi - 1]
  {
    assert s[lo..hi] == s[lo..hi - 1] + [s[hi - 1]];
  }

  /** Past a character other than `c`, the search just steps back. */
  lemma RIndexStep(s: string, c: char, hi: nat)
    requires 0 < hi <= |s| && s[hi - 1] != c
    ensures RIndex(s, c, hi) == RIndex(s, c, hi - 1)
  {
  }

  /** An occurrence at `j` below `hi` bounds the search result from below. */
  lemma {:induction false} RIndexAtLeast(s: string, c: char, hi: nat, j: nat)
    requires j < hi <= |s| && s[j] == c
    ensures RIndex(s, c, hi).Some? && RIndex(s, c, hi).value >= j
    decreases hi
  {
    if s[hi - 1] != c {
      RIndexAtLeast(s, c, hi - 1, j);
    }
  }

  /** A slice that starts with `c` and is not empty counts at least one `c`. */
  lemma CountLeading(s: string, c: char, j: nat, k: nat)
    requires j <= k <= |s|
    requires j < |s| && s[j] == c
    ensures Count(s[j..k], c) >= if j < k then 1 else 0
  {
    if j < k {
      assert s[j..k][0] == c;
    }
  }

  /** Decimal digit for `d`. */
  function DigitChar(d: nat): (r: char)
    requires d < 10
    ensures '0' <= r <= '9'
  {
    ('0' as int + d) as char
  }

  predicate IsDigits(s: string) {
    forall i :: 0 <= i < |s| ==> '0' <= s[i] <= '9'
  }

  /** The number a string of decimal digits denotes, most significant first. */
  function DigitsValue(s: string): nat
    requires IsDigits(s)
    decreases |s|
  {
    if |s| == 0 then 0 else DigitsValue(s[..|s| - 1]) * 10 + (s[|s| - 1] as int - '0' as int)
  }

  /** `str(n)` for a non-negative integer: a non-empty string of digits. */
  function NatToString(n: nat): (r: string)
    ensures |r| >= 1
    ensures IsDigits(r)
    ensures n < 10 <==> |r| == 1
    decreases n
  {
    if n < 10 then [DigitChar(n)] else NatToString(n / 10) + [DigitChar(n % 10)]
  }

  /** `str(n)` gives the digits that denote `n`, with no leading zero. */
  lemma {:induction false} NatToStringValue(n: nat)
    ensures DigitsValue(NatToString(n)) == n
    ensures |NatToString(n)| > 1 ==> NatToString(n)[0] != '0'
    decreases n
  {
    if n >= 10 {
      var prefix := NatToString(n / 10);
      NatToStringValue(n / 10);
      var r := NatToString(n);
      assert r[..|r| - 1] == prefix;
      assert r[0] == prefix[0];
    }
  }

  /** Every digit string without a leading zero is the rendering of the
      number it denotes, so `NatToString` and `DigitsValue` are inverse. */
  lemma {:induction false} NatToStringOfDigits(s: string)
    requires |s| >= 1 && IsDigits(s)
    requires |s| > 1 ==> s[0] != '0'
    ensures NatToString(DigitsValue(s)) == s
    decreases |s|
  {
    var d := s[|s| - 1] as int - '0' as int;
    if |s| == 1 {
      assert DigitChar(d) == s[0];
      assert s == [s[0]];
    } else {
      var p := s[..|s| - 1];
      assert p[0] == s[0];
      NatToStringOfDigits(p);
      var v := DigitsValue(s);
      assert NatToString(0) == ['0'];
      assert DigitsValue(p) != 0;
      assert v / 10 == DigitsValue(p) && v % 10 == d;
      assert DigitChar(d) == s[|s| - 1];
      assert s == p + [s[|s| - 1]];
    }
  }

  /** Position of the first `c` in `s`. */
  function IndexOf(s: string, c: char): (r: nat)
    requires c in s
    ensures r < |s| && s[r] == c && c !in s[..r]
    decreases |s|
  {
    if s[0] == c then 0
    else
      var r := 1 + IndexOf(s[1..], c);
      assert s[..r] == [s[0]] + s[1..][..r - 1];
      r
  }

  /** The first `c` after a `c`-free piece is right behind it. */
  lemma {:induction false} IndexOfAfter(x: string, c: char, y: string)
    requires c !in x
    ensures IndexOf(x + [c] + y, c) == |x|
  {
    if |x| > 0 {
      assert (x + [c] + y)[1..] == x[1..] + [c] + y;
      IndexOfAfter(x[1..], c, y);
    }
  }

  /** A separator absent from both leading pieces splits two equal strings
      at the same place. */
  lemma SplitAtFirst(x: string, y: string, x2: string, y2: string, c: char)
    requires c !in x && c !in x2
    requires x + [c] + y == x2 + [c] + y2
    ensures x == x2 && y == y2
  {
    var s := x + [c] + y;
    IndexOfAfter(x, c, y);
    IndexOfAfter(x2, c, y2);
    assert x == s[..|x|] && x2 == s[..|x2|];
    assert y == s[|x| + 1..] && y2 == s[|x2| + 1..];
  }

  /** Distinct numbers render differently. */
  lemma NatToStringInjective(a: nat, b: nat)
    requires NatToString(a) == NatToString(b)
    ensures a == b
  {
    NatToStringValue(a);
    NatToStringValue(b);
  }

  /** `_normalize_string`: dots and dashes become underscores, nothing else changes. */
  function NormalizeString(s: string): (r: string)
    ensures |r| == |s|
    ensures '.' !in r && '-' !in r
    ensures forall i :: 0 <= i < |s| && s[i] != '.' && s[i] != '-' ==> r[i] == s[i]
    ensures forall i :: 0 <= i < |s| && (s[i] == '.' || s[i] == '-') ==> r[i] == '_'
  {
    ReplaceChar(ReplaceChar(s, '.', '_'), '-', '_')
  }

  /** Normalising twice is the same as normalising once. */
  lemma NormalizeIdempotent(s: string)
    ensures NormalizeString(NormalizeString(s)) == NormalizeString(s)
  {
  }
}
