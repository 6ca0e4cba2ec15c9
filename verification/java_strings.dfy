/** The java.lang.String operations the codec relies on: strip, isBlank, split with a
    literal delimiter and limit 0, and String.join.  Strings are sequences of Unicode
    scalar values. */
module JavaStrings {

  /** Character.isWhitespace: the ASCII controls HT, LF, VT, FF, CR and FS, GS, RS, US,
      and the Unicode space, line and paragraph separators other than the no-break ones. */
  predicate IsWhitespace(c: char) {
    || c == ' '
    || ('\t' <= c <= '\r')
    || ('\U{1C}' <= c <= '\U{1F}')
    || c == '\U{1680}'
    || ('\U{2000}' <= c <= '\U{2006}')
    || ('\U{2008}' <= c <= '\U{200A}')
    || c == '\U{2028}'
    || c == '\U{2029}'
    || c == '\U{205F}'
    || c == '\U{3000}'
  }

  /** String.isBlank: empty, or whitespace only. */
  predicate IsBlank(s: string) {
    forall i | 0 <= i < |s| :: IsWhitespace(s[i])
  }

  /** `s.matches("\\x00+")`: one or more NUL characters and nothing else. */
  predicate IsNulRun(s: string) {
    |s| > 0 && forall i | 0 <= i < |s| :: s[i] == '\0'
  }

  /** Neither starts nor ends with whitespace: what String.strip leaves behind. */
  predicate IsTrimmed(s: string) {
    s == [] || (!IsWhitespace(s[0]) && !IsWhitespace(s[|s| - 1]))
  }

  /** Every character of `s` is `c` (vacuously true of the empty string). */
  predicate Only(s: string, c: char) {
    forall i | 0 <= i < |s| :: s[i] == c
  }

  predicate StartsWith(s: string, prefix: string) {
    |prefix| <= |s| && s[..|prefix|] == prefix
  }

  predicate EndsWith(s: string, suffix: string) {
    |suffix| <= |s| && s[|s| - |suffix|..] == suffix
  }

  /** The first index at or after `i` that holds no whitespace, or |s|. */
  function SkipForward(s: string, i: nat): (j: nat)
    requires i <= |s|
    ensures i <= j <= |s|
    ensures forall k | i <= k < j :: IsWhitespace(s[k])
    ensures j == |s| || !IsWhitespace(s[j])
    decreases |s| - i
  {
    if i == |s| || !IsWhitespace(s[i]) then i else SkipForward(s, i + 1)
  }

  /** Going back from `j`: one past the last index before `j` that holds no whitespace,
      or 0. */
  function SkipBackward(s: string, j: nat): (i: nat)
    requires j <= |s|
    ensures i <= j
    ensures forall k | i <= k < j :: IsWhitespace(s[k])
    ensures i == 0 || !IsWhitespace(s[i - 1])
    decreases j
  {
    if j == 0 || !IsWhitespace(s[j - 1]) then j else SkipBackward(s, j - 1)
  }

  /** String.strip: the empty string when `s` is blank, otherwise the text from the first
      to the last character that is not whitespace. */
  function Strip(s: string): (r: string)
    ensures IsTrimmed(r)
    ensures r == [] <==> IsBlank(s)
  {
    var left := SkipForward(s, 0);
    if left == |s| then "" else s[left..SkipBackward(s, |s|)]
  }

  /** String.join(sep, parts) and Collectors.joining(sep). */
  function Join(parts: seq<string>, sep: string): string
    decreases |parts|
  {
    if |parts| == 0 then ""
    else if |parts| == 1 then parts[0]
    else parts[0] + sep + Join(parts[1..], sep)
  }

  /** Cutting `s` at every occurrence of `d`, scanning left to right and never letting two
      occurrences overlap; every piece is kept, empty ones included. */
  function RawSplit(s: string, d: string): (r: seq<string>)
    requires |d| > 0
    ensures |r| >= 1
    ensures Join(r, d) == s
    ensures |d| == 1 ==> forall i | 0 <= i < |r| :: d[0] !in r[i]
    decreases |s|
  {
    if |s| < |d| then
      [s]
    else if s[..|d|] == d then
      var rest := RawSplit(s[|d|..], d);
      JoinEmptyFirst(rest, d);
      assert s == d + s[|d|..];
      [""] + rest
    else
      var rest := RawSplit(s[1..], d);
      JoinGrowFirst(s[0], rest, d);
      assert s == [s[0]] + s[1..];
      [[s[0]] + rest[0]] + rest[1..]
  }

  lemma JoinEmptyFirst(parts: seq<string>, sep: string)
    requires |parts| >= 1
    ensures Join([""] + parts, sep) == sep + Join(parts, sep)
  {
    assert ([""] + parts)[1..] == parts;
  }

  lemma JoinGrowFirst(c: char, parts: seq<string>, sep: string)
    requires |parts| >= 1
    ensures Join([[c] + parts[0]] + parts[1..], sep) == [c] + Join(parts, sep)
  {
    var grown := [[c] + parts[0]] + parts[1..];
    assert grown[1..] == parts[1..];
  }

  /** The empty pieces at the end of a split, removed. */
  function DropTrailingEmpty(ps: seq<string>): (r: seq<string>)
    ensures |r| <= |ps| && r == ps[..|r|]
    ensures forall i | |r| <= i < |ps| :: ps[i] == ""
    ensures r == [] || r[|r| - 1] != ""
    decreases |ps|
  {
    if |ps| > 0 && ps[|ps| - 1] == "" then DropTrailingEmpty(ps[..|ps| - 1]) else ps
  }

  /** String.split(d) with limit 0, for a non-empty literal delimiter: when `d` does not
      occur the result is `[s]` (even for the empty string); otherwise the pieces, with the
      empty ones at the end removed (possibly all of them). */
  function Split(s: string, d: string): (r: seq<string>)
    requires |d| > 0
    ensures |RawSplit(s, d)| == 1 ==> r == [s]
    ensures |RawSplit(s, d)| > 1 ==> r == [] || r[|r| - 1] != ""
    ensures |r| <= |RawSplit(s, d)| && r == RawSplit(s, d)[..|r|]
    ensures forall i | |r| <= i < |RawSplit(s, d)| :: RawSplit(s, d)[i] == ""
  {
    var raw := RawSplit(s, d);
    if |raw| == 1 then raw else DropTrailingEmpty(raw)
  }

  /** The part of `s` before the first `c`, or all of `s` when there is none. */
  function PrefixBefore(s: string, c: char): (r: string)
    ensures |r| <= |s| && r == s[..|r|]
    ensures c !in r
    ensures r == s || s[|r|] == c
    decreases |s|
  {
    if |s| == 0 || s[0] == c then "" else [s[0]] + PrefixBefore(s[1..], c)
  }

  // ---------------------------------------------------------------------------
  // strip

  lemma {:induction false} SkipForwardUnique(s: string, i: nat, m: nat)
    requires i <= m <= |s|
    requires forall k | i <= k < m :: IsWhitespace(s[k])
    requires m == |s| || !IsWhitespace(s[m])
    ensures SkipForward(s, i) == m
  {
  }

  lemma {:induction false} SkipBackwardUnique(s: string, j: nat, m: nat)
    requires m <= j <= |s|
    requires forall k | m <= k < j :: IsWhitespace(s[k])
    requires m == 0 || !IsWhitespace(s[m - 1])
    ensures SkipBackward(s, j) == m
  {
  }

  lemma {:induction false} BlankConcat(a: string, b: string)
    requires IsBlank(a) && IsBlank(b)
    ensures IsBlank(a + b)
  {
    assert forall i | 0 <= i < |a + b| :: (a + b)[i] == if i < |a| then a[i] else b[i - |a|];
  }

  /** Whatever blank text surrounds a trimmed string, strip removes exactly that text. */
  lemma {:induction false} StripUnique(a: string, r: string, b: string)
    requires IsBlank(a) && IsBlank(b) && IsTrimmed(r)
    ensures Strip(a + r + b) == r
  {
    var s := a + r + b;
    if r == [] {
      BlankConcat(a, b);
      assert s == a + b;
    } else {
      assert forall k | 0 <= k < |a| :: s[k] == a[k];
      assert s[|a|] == r[0];
      SkipForwardUnique(s, 0, |a|);
      var right := |a| + |r|;
      assert forall k | right <= k < |s| :: s[k] == b[k - right];
      assert s[right - 1] == r[|r| - 1];
      SkipBackwardUnique(s, |s|, right);
      assert s[|a|..right] == r;
    }
  }

  /** Every string is its stripped form with blank text around it. */
  lemma {:induction false} StripDecomposes(s: string) returns (a: string, b: string)
    ensures IsBlank(a) && IsBlank(b)
    ensures s == a + Strip(s) + b
  {
    var left := SkipForward(s, 0);
    if left == |s| {
      a, b := s, "";
    } else {
      var right := SkipBackward(s, |s|);
      a, b := s[..left], s[right..];
      assert s == a + s[left..right] + b;
    }
  }

  /** strip only removes characters. */
  lemma {:induction false} StripKeepsOut(s: string, c: char)
    requires c !in s
    ensures c !in Strip(s)
  {
    var a, b := StripDecomposes(s);
  }

  lemma {:induction false} StripTrimmed(s: string)
    requires IsTrimmed(s)
    ensures Strip(s) == s
  {
    StripUnique([], s, []);
    assert [] + s + [] == s;
  }

  /** Re-association step of StripIgnoresPadding, proved on its own to keep that proof
      small. */
  lemma {:induction false} Regroup(w1: string, a: string, r: string, b: string, w2: string)
    ensures w1 + (a + r + b) + w2 == (w1 + a) + r + (b + w2)
  {
  }

  /** Blank padding on either side does not change what strip returns. */
  lemma {:induction false} StripIgnoresPadding(w1: string, s: string, w2: string)
    requires IsBlank(w1) && IsBlank(w2)
    ensures Strip(w1 + s + w2) == Strip(s)
  {
    var a, b := StripDecomposes(s);
    var r := Strip(s);
    BlankConcat(w1, a);
    BlankConcat(b, w2);
    Regroup(w1, a, r, b, w2);
    StripUnique(w1 + a, r, b + w2);
  }

  // ---------------------------------------------------------------------------
  // split and join

  lemma {:induction false} RawSplitNoDelimiter(a: string, d: string)
    requires |d| > 0 && d[0] !in a
    ensures RawSplit(a, d) == [a]
    decreases |a|
  {
    if |a| >= |d| {
      assert a[..|d|][0] == a[0];
      RawSplitNoDelimiter(a[1..], d);
      assert [a[0]] + a[1..] == a;
    }
  }

  /** A two-character delimiter cut short at the very end of the text is no occurrence. */
  lemma {:induction false} RawSplitHalfDelimiterAtEnd(a: string, d: string)
    requires |d| == 2 && d[0] !in a
    ensures RawSplit(a + [d[0]], d) == [a + [d[0]]]
    decreases |a|
  {
    var s := a + [d[0]];
    if |a| > 0 {
      assert s[0] == a[0] && s[1..] == a[1..] + [d[0]];
      RawSplitHalfDelimiterAtEnd(a[1..], d);
      assert [s[0]] + (a[1..] + [d[0]]) == s;
    }
  }

  lemma {:induction false} RawSplitAppend(a: string, d: string, b: string)
    requires |d| > 0 && d[0] !in a
    ensures RawSplit(a + d + b, d) == [a] + RawSplit(b, d)
    decreases |a|
  {
    var s := a + d + b;
    if a == [] {
      assert s[..|d|] == d && s[|d|..] == b;
    } else {
      assert s[..|d|][0] == a[0];
      assert s[1..] == a[1..] + d + b;
      RawSplitAppend(a[1..], d, b);
      assert [a[0]] + a[1..] == a;
    }
  }

  /** `d` occurs in `s` at index `i`. */
  predicate MatchAt(s: string, d: string, i: nat) {
    i + |d| <= |s| && s[i..i + |d|] == d
  }

  /** String.contains. */
  predicate Contains(s: string, d: string) {
    exists i: nat | i <= |s| :: MatchAt(s, d, i)
  }

  /** No occurrence of `d` in `s` starts before index `n`. */
  predicate NoMatchBefore(s: string, d: string, n: nat) {
    forall i: nat | i < n :: !MatchAt(s, d, i)
  }

  /** A delimiter no occurrence of which can start in the text just before another one:
      a single character, or two different characters such as ": ". */
  predicate SelfDisjoint(d: string) {
    |d| == 1 || (|d| == 2 && d[0] != d[1])
  }

  /** A string free of a character does not contain it. */
  lemma {:induction false} LacksChar(s: string, c: char)
    requires c !in s
    ensures !Contains(s, [c])
  {
    forall i: nat | i <= |s|
      ensures !MatchAt(s, [c], i)
    {
      if i + 1 <= |s| {
        assert s[i..i + 1][0] == s[i];
      }
    }
  }

  /** Text that does not contain the delimiter is a single piece. */
  lemma {:induction false} RawSplitNoMatch(a: string, d: string)
    requires |d| > 0 && !Contains(a, d)
    ensures RawSplit(a, d) == [a]
    decreases |a|
  {
    if |a| >= |d| {
      assert !MatchAt(a, d, 0);
      var t := a[1..];
      forall i: nat | i <= |t|
        ensures !MatchAt(t, d, i)
      {
        assert !MatchAt(a, d, i + 1);
        if i + |d| <= |t| {
          assert t[i..i + |d|] == a[i + 1..i + 1 + |d|];
        }
      }
      RawSplitNoMatch(t, d);
      assert [a[0]] + t == a;
    }
  }

  /** When no occurrence starts inside `a`, the first piece of `a + d + b` is `a`, and
      the others are the pieces of `b`. */
  lemma {:induction false} RawSplitAfterFirst(a: string, d: string, b: string)
    requires |d| > 0 && NoMatchBefore(a + d + b, d, |a|)
    ensures RawSplit(a + d + b, d) == [a] + RawSplit(b, d)
    decreases |a|
  {
    var s := a + d + b;
    if a == [] {
      assert s[..|d|] == d && s[|d|..] == b;
    } else {
      assert !MatchAt(s, d, 0);
      var t := s[1..];
      assert t == a[1..] + d + b;
      forall i: nat | i < |a| - 1
        ensures !MatchAt(t, d, i)
      {
        assert !MatchAt(s, d, i + 1);
        if i + |d| <= |t| {
          assert t[i..i + |d|] == s[i + 1..i + 1 + |d|];
        }
      }
      RawSplitAfterFirst(a[1..], d, b);
      assert [a[0]] + a[1..] == a;
    }
  }

  /** For a self-disjoint delimiter, text that does not contain it leaves no occurrence
      starting before the delimiter that follows it. */
  lemma {:induction false} NoMatchAcross(a: string, d: string, b: string)
    requires SelfDisjoint(d) && !Contains(a, d)
    ensures NoMatchBefore(a + d + b, d, |a|)
  {
    var s := a + d + b;
    forall i: nat | i < |a|
      ensures !MatchAt(s, d, i)
    {
      if i + |d| <= |a| {
        assert !MatchAt(a, d, i);
        assert s[i..i + |d|] == a[i..i + |d|];
      } else {
        assert s[i..i + |d|][1] == s[i + 1] == d[0];
      }
    }
  }

  /** No piece of a split contains the delimiter: each one ends where the scan found the
      next occurrence. */
  lemma {:induction false} RawSplitPiecesAvoid(s: string, d: string)
    requires |d| > 0
    ensures forall i | 0 <= i < |RawSplit(s, d)| :: !Contains(RawSplit(s, d)[i], d)
    decreases |s|
  {
    var r := RawSplit(s, d);
    if |s| < |d| {
      assert r == [s];
    } else if s[..|d|] == d {
      var rest := RawSplit(s[|d|..], d);
      RawSplitPiecesAvoid(s[|d|..], d);
      assert r == [""] + rest;
      forall i | 0 <= i < |r|
        ensures !Contains(r[i], d)
      {
        if i > 0 {
          assert r[i] == rest[i - 1];
        }
      }
    } else {
      var rest := RawSplit(s[1..], d);
      RawSplitPiecesAvoid(s[1..], d);
      var p := [s[0]] + rest[0];
      assert r == [p] + rest[1..];
      JoinEnds(rest, d);
      assert p == s[..|p|];
      assert !Contains(rest[0], d);
      forall i: nat | i <= |p|
        ensures !MatchAt(p, d, i)
      {
        if i == 0 {
          if |d| <= |p| {
            assert p[..|d|] == s[..|d|];
          }
        } else {
          assert !MatchAt(rest[0], d, i - 1);
          if i + |d| <= |p| {
            assert p[i..i + |d|] == rest[0][i - 1..i - 1 + |d|];
          }
        }
      }
      forall i | 0 <= i < |r|
        ensures !Contains(r[i], d)
      {
        if i > 0 {
          assert r[i] == rest[i];
        }
      }
    }
  }

  /** A text cut into two pieces or more is the first piece, the delimiter, the second
      piece, and then either nothing or the delimiter and the rest. */
  lemma {:induction false} RawSplitLeading(s: string, d: string)
    requires |d| > 0 && |RawSplit(s, d)| >= 2
    ensures var r := RawSplit(s, d);
            s == r[0] + d + r[1] + (if |r| > 2 then d + Join(r[2..], d) else [])
  {
    var r := RawSplit(s, d);
    assert r[1..][0] == r[1] && r[1..][1..] == r[2..];
    assert Join(r, d) == r[0] + d + Join(r[1..], d);
  }

  /** The first two pieces of a split are the text before the first delimiter and the text
      between the first and second one; whatever follows the second delimiter does not
      change them. */
  lemma {:induction false} SplitLeadingPieces(a: string, d: string, b: string, rest: string)
    requires SelfDisjoint(d) && !Contains(a, d) && !Contains(b, d) && b != ""
    ensures Split(a + d + b, d) == [a, b]
    ensures |Split(a + d + b + d + rest, d)| >= 2
    ensures Split(a + d + b + d + rest, d)[..2] == [a, b]
  {
    RawSplitLeadingPieces(a, d, b, rest);
    var raw := RawSplit(a + d + b + d + rest, d);
    assert raw[1] == b;
  }

  /** The same, before trailing empty pieces are dropped. */
  lemma {:induction false} RawSplitLeadingPieces(a: string, d: string, b: string, rest: string)
    requires SelfDisjoint(d) && !Contains(a, d) && !Contains(b, d)
    ensures RawSplit(a + d + b, d) == [a, b]
    ensures RawSplit(a + d + b + d + rest, d) == [a, b] + RawSplit(rest, d)
  {
    NoMatchAcross(a, d, b);
    RawSplitAfterFirst(a, d, b);
    RawSplitNoMatch(b, d);
    RawSplitTwoOccurrences(a, d, b, rest);
  }

  lemma {:induction false} RawSplitTwoOccurrences(a: string, d: string, b: string, rest: string)
    requires SelfDisjoint(d) && !Contains(a, d) && !Contains(b, d)
    ensures RawSplit(a + d + b + d + rest, d) == [a, b] + RawSplit(rest, d)
  {
    var later := b + d + rest;
    assert a + d + b + d + rest == a + d + later;
    NoMatchAcross(a, d, later);
    RawSplitAfterFirst(a, d, later);
    NoMatchAcross(b, d, rest);
    RawSplitAfterFirst(b, d, rest);
    assert [a] + ([b] + RawSplit(rest, d)) == [a, b] + RawSplit(rest, d);
  }

  /** Splitting a joined sequence gives the pieces back when the pieces do not contain the
      delimiter's first character. */
  lemma {:induction false} RawSplitJoin(parts: seq<string>, d: string)
    requires |d| > 0 && |parts| >= 1
    requires forall i | 0 <= i < |parts| :: d[0] !in parts[i]
    ensures RawSplit(Join(parts, d), d) == parts
    decreases |parts|
  {
    if |parts| == 1 {
      RawSplitNoDelimiter(parts[0], d);
    } else {
      RawSplitAppend(parts[0], d, Join(parts[1..], d));
      RawSplitJoin(parts[1..], d);
      assert [parts[0]] + parts[1..] == parts;
    }
  }

  /** split inverts join, provided no piece holds the delimiter's first character and the
      last piece is not empty (split would drop it). */
  lemma {:induction false} SplitJoin(parts: seq<string>, d: string)
    requires |d| > 0 && |parts| >= 1
    requires forall i | 0 <= i < |parts| :: d[0] !in parts[i]
    requires |parts| == 1 || parts[|parts| - 1] != ""
    ensures Split(Join(parts, d), d) == parts
  {
    RawSplitJoin(parts, d);
  }

  lemma {:induction false} PrefixBeforeUnique(s: string, c: char, p: string)
    requires |p| <= |s| && p == s[..|p|] && c !in p
    requires p == s || s[|p|] == c
    ensures PrefixBefore(s, c) == p
  {
    var q := PrefixBefore(s, c);
  }

  /** With a one-character delimiter, the first piece is the part before the first `c`. */
  lemma {:induction false} RawSplitFirstPiece(s: string, c: char)
    ensures RawSplit(s, [c])[0] == PrefixBefore(s, c)
  {
    var r := RawSplit(s, [c]);
    if |r| > 1 {
      assert s == r[0] + [c] + Join(r[1..], [c]);
      assert s[..|r[0]|] == r[0];
    }
    PrefixBeforeUnique(s, c, r[0]);
  }

  lemma {:induction false} JoinOfEmptyPieces(ps: seq<string>, c: char)
    requires forall i | 0 <= i < |ps| :: ps[i] == ""
    ensures Only(Join(ps, [c]), c)
    decreases |ps|
  {
    if |ps| > 1 {
      JoinOfEmptyPieces(ps[1..], c);
      assert Join(ps, [c]) == [c] + Join(ps[1..], [c]);
    }
  }

  /** With a one-character delimiter, every piece is empty exactly when the string is
      made of the delimiter only. */
  lemma {:induction false} RawSplitAllEmpty(s: string, c: char)
    ensures (forall i | 0 <= i < |RawSplit(s, [c])| :: RawSplit(s, [c])[i] == "") <==> Only(s, c)
    decreases |s|
  {
    var r := RawSplit(s, [c]);
    if forall i | 0 <= i < |r| :: r[i] == "" {
      JoinOfEmptyPieces(r, c);
    }
    if Only(s, c) && |s| >= 1 {
      assert s[..1] == [c];
      RawSplitAllEmpty(s[1..], c);
      assert r == [""] + RawSplit(s[1..], [c]);
    }
  }

  /** With a one-character delimiter, split returns nothing exactly for a non-empty run of
      the delimiter (`"?".split("\\?")` is empty), and otherwise starts with the part
      before the first delimiter. */
  lemma {:induction false} SplitSingleCharFirst(s: string, c: char)
    ensures Split(s, [c]) == [] <==> |s| > 0 && Only(s, c)
    ensures Split(s, [c]) != [] ==> Split(s, [c])[0] == PrefixBefore(s, c)
  {
    var raw := RawSplit(s, [c]);
    var r := Split(s, [c]);
    RawSplitAllEmpty(s, c);
    RawSplitFirstPiece(s, c);
    if |s| > 0 && Only(s, c) {
      assert s[..1] == [c];
      assert |raw| > 1;
    }
    if r == [] && |raw| > 1 {
      assert forall i | 0 <= i < |raw| :: raw[i] == "";
    }
  }

  /** With a one-character delimiter and `s = p + c + rest` (`p` free of `c`), split yields
      at least two pieces exactly when `rest` holds something other than `c`, and its
      second piece is then the part of `rest` before the next `c`. */
  lemma {:induction false} SplitSingleCharSecond(p: string, c: char, rest: string)
    requires c !in p
    ensures |Split(p + [c] + rest, [c])| >= 2 <==> !Only(rest, c)
    ensures |Split(p + [c] + rest, [c])| >= 2 ==> Split(p + [c] + rest, [c])[1] == PrefixBefore(rest, c)
  {
    var s := p + [c] + rest;
    RawSplitAppend(p, [c], rest);
    var raw := RawSplit(s, [c]);
    var tail := RawSplit(rest, [c]);
    assert raw == [p] + tail;
    var r := Split(s, [c]);
    RawSplitAllEmpty(rest, c);
    RawSplitFirstPiece(rest, c);
    if !Only(rest, c) {
      var j :| 0 <= j < |tail| && tail[j] != "";
      assert raw[j + 1] != "";
    }
  }

  // ---------------------------------------------------------------------------
  // joins

  lemma {:induction false} JoinAppend(a: seq<string>, b: seq<string>, sep: string)
    requires |a| > 0 && |b| > 0
    ensures Join(a + b, sep) == Join(a, sep) + sep + Join(b, sep)
    decreases |a|
  {
    if |a| > 1 {
      JoinAppend(a[1..], b, sep);
      assert (a + b)[1..] == a[1..] + b;
    } else {
      assert (a + b)[1..] == b;
    }
  }

  lemma {:induction false} JoinAvoids(parts: seq<string>, sep: string, c: char)
    requires c !in sep
    requires forall i | 0 <= i < |parts| :: c !in parts[i]
    ensures c !in Join(parts, sep)
    decreases |parts|
  {
    if |parts| > 1 {
      JoinAvoids(parts[1..], sep, c);
    }
  }

  lemma {:induction false} JoinBlank(parts: seq<string>, sep: string)
    requires IsBlank(sep)
    requires forall i | 0 <= i < |parts| :: IsBlank(parts[i])
    ensures IsBlank(Join(parts, sep))
    decreases |parts|
  {
    if |parts| > 1 {
      JoinBlank(parts[1..], sep);
      BlankConcat(parts[0], sep);
      BlankConcat(parts[0] + sep, Join(parts[1..], sep));
    }
  }

  /** A join starts with the first piece and ends with the last one. */
  lemma {:induction false} JoinEnds(parts: seq<string>, sep: string)
    requires |parts| > 0
    ensures StartsWith(Join(parts, sep), parts[0])
    ensures EndsWith(Join(parts, sep), parts[|parts| - 1])
  {
    var n := |parts|;
    if n > 1 {
      JoinAppend(parts[..n - 1], [parts[n - 1]], sep);
      assert parts[..n - 1] + [parts[n - 1]] == parts;
      var j := Join(parts, sep);
      assert j == Join(parts[..n - 1], sep) + sep + parts[n - 1];
      assert j[|j| - |parts[n - 1]|..] == parts[n - 1];
      assert j == parts[0] + sep + Join(parts[1..], sep);
      assert j[..|parts[0]|] == parts[0];
    }
  }

  /** A trimmed, non-empty first and last line make the joined block trimmed. */
  lemma {:induction false} JoinTrimmed(parts: seq<string>, sep: string)
    requires |parts| > 0 && parts[0] != [] && parts[|parts| - 1] != []
    requires !IsWhitespace(parts[0][0]) && !IsWhitespace(parts[|parts| - 1][|parts[|parts| - 1]| - 1])
    ensures IsTrimmed(Join(parts, sep))
  {
    JoinEnds(parts, sep);
    var j := Join(parts, sep);
    var last := parts[|parts| - 1];
    assert j[0] == j[..|parts[0]|][0];
    assert j[|j| - 1] == j[|j| - |last|..][|last| - 1];
  }

  /** Pieces joined with a delimiter and followed by it come back first from the raw cut,
      whatever follows them. */
  lemma {:induction false} RawSplitJoinThen(parts: seq<string>, d: string, rest: string)
    requires |d| > 0 && |parts| >= 1
    requires forall i | 0 <= i < |parts| :: d[0] !in parts[i]
    ensures RawSplit(Join(parts, d) + d + rest, d) == parts + RawSplit(rest, d)
    decreases |parts|
  {
    if |parts| == 1 {
      assert Join(parts, d) == parts[0];
      RawSplitAppend(parts[0], d, rest);
    } else {
      var tail := parts[1..];
      assert forall i | 0 <= i < |tail| :: d[0] !in tail[i] by {
        assert forall i | 0 <= i < |tail| :: tail[i] == parts[i + 1];
      }
      var later := Join(tail, d) + d + rest;
      JoinThenRegroup(parts, d, rest);
      RawSplitJoinThen(tail, d, rest);
      RawSplitAppend(parts[0], d, later);
      ConsAppend(parts, RawSplit(rest, d));
    }
  }

  /** Re-association steps of RawSplitJoinThen, proved on their own to keep that proof
      small. */
  lemma ConsAppend(parts: seq<string>, after: seq<string>)
    requires |parts| >= 1
    ensures [parts[0]] + (parts[1..] + after) == parts + after
  {
    assert parts == [parts[0]] + parts[1..];
  }

  lemma {:induction false} JoinThenRegroup(parts: seq<string>, d: string, rest: string)
    requires |parts| >= 2
    ensures Join(parts, d) + d + rest == parts[0] + d + (Join(parts[1..], d) + d + rest)
  {
  }

  /** The first pieces of a split are the joined pieces, when the last of them is not
      empty, whatever follows the next delimiter. */
  lemma {:induction false} SplitJoinThen(parts: seq<string>, d: string, rest: string)
    requires |d| > 0 && |parts| >= 1 && parts[|parts| - 1] != ""
    requires forall i | 0 <= i < |parts| :: d[0] !in parts[i]
    ensures |Split(Join(parts, d) + d + rest, d)| >= |parts|
    ensures Split(Join(parts, d) + d + rest, d)[..|parts|] == parts
  {
    RawSplitJoinThen(parts, d, rest);
    var raw := RawSplit(Join(parts, d) + d + rest, d);
    assert raw[|parts| - 1] == parts[|parts| - 1];
  }

  /** With a one-character delimiter, the joined pieces come first even when the last of
      them is empty, as long as something other than the delimiter follows; and then
      there are more pieces after them. */
  lemma {:induction false} SplitJoinThenMore(parts: seq<string>, c: char, rest: string)
    requires |parts| >= 1 && !Only(rest, c)
    requires forall i | 0 <= i < |parts| :: c !in parts[i]
    ensures |Split(Join(parts, [c]) + [c] + rest, [c])| > |parts|
    ensures Split(Join(parts, [c]) + [c] + rest, [c])[..|parts|] == parts
  {
    RawSplitJoinThen(parts, [c], rest);
    var tail := RawSplit(rest, [c]);
    var raw := RawSplit(Join(parts, [c]) + [c] + rest, [c]);
    assert raw == parts + tail;
    RawSplitAllEmpty(rest, c);
    var j :| 0 <= j < |tail| && tail[j] != "";
    assert raw[|parts| + j] != "";
  }

  /** Empty pieces after a non-empty last piece are what String.split drops. */
  lemma {:induction false} SplitJoinTrailingEmpty(parts: seq<string>, extra: seq<string>, d: string)
    requires |d| > 0 && |parts| >= 1 && parts[|parts| - 1] != ""
    requires forall i | 0 <= i < |parts| :: d[0] !in parts[i]
    requires forall i | 0 <= i < |extra| :: extra[i] == ""
    ensures Split(Join(parts + extra, d), d) == parts
  {
    var all := parts + extra;
    assert forall i | 0 <= i < |all| :: d[0] !in all[i] by {
      assert forall i | 0 <= i < |all| :: all[i] == if i < |parts| then parts[i] else extra[i - |parts|];
    }
    RawSplitJoin(all, d);
    var r := Split(Join(all, d), d);
    if |extra| > 0 {
      assert all[|parts| - 1] == parts[|parts| - 1];
      assert |r| >= |parts|;
      assert r == all[..|parts|];
      assert all[..|parts|] == parts;
    } else {
      assert all == parts;
      SplitJoin(parts, d);
    }
  }

  /** Every piece of a join, followed by a separator, occurs in the join followed by one
      more separator. */
  lemma {:induction false} JoinAt(parts: seq<string>, sep: string, j: nat) returns (before: string, after: string)
    requires j < |parts|
    ensures Join(parts, sep) + sep == before + parts[j] + sep + after
    decreases j
  {
    if |parts| == 1 {
      before, after := "", "";
    } else if j == 0 {
      before, after := "", Join(parts[1..], sep) + sep;
      assert Join(parts, sep) + sep == parts[0] + sep + (Join(parts[1..], sep) + sep);
    } else {
      var b, a := JoinAt(parts[1..], sep, j - 1);
      before, after := parts[0] + sep + b, a;
      calc {
        Join(parts, sep) + sep;
        parts[0] + sep + (Join(parts[1..], sep) + sep);
        parts[0] + sep + (b + parts[1..][j - 1] + sep + a);
        (parts[0] + sep + b) + parts[j] + sep + a;
      }
    }
  }

  /** A run of `c` after a join is one empty piece per `c`. */
  lemma {:induction false} JoinTrailingRun(parts: seq<string>, c: char, pad: string)
    requires |parts| >= 1 && Only(pad, c)
    ensures Join(parts, [c]) + pad == Join(parts + seq(|pad|, i => ""), [c])
    decreases |pad|
  {
    if pad == [] {
      assert parts + seq(|pad|, i => "") == parts;
    } else {
      var shorter := pad[..|pad| - 1];
      JoinTrailingRun(parts, c, shorter);
      var longer := parts + seq(|shorter|, i => "");
      JoinAppend(longer, [""], [c]);
      assert parts + seq(|pad|, i => "") == longer + [""];
      assert pad == shorter + [c];
    }
  }

  /** split drops a run of a one-character delimiter after a joined text whose last
      piece is not empty. */
  lemma {:induction false} SplitJoinTrailingRun(parts: seq<string>, c: char, pad: string)
    requires |parts| >= 1 && parts[|parts| - 1] != ""
    requires forall i | 0 <= i < |parts| :: c !in parts[i]
    requires Only(pad, c)
    ensures Split(Join(parts, [c]) + pad, [c]) == parts
  {
    JoinTrailingRun(parts, c, pad);
    SplitJoinTrailingEmpty(parts, seq(|pad|, i => ""), [c]);
  }

  /** Padding after a join is padding after its last piece. */
  lemma {:induction false} JoinPadLast(parts: seq<string>, sep: string, pad: string)
    requires |parts| >= 1
    ensures Join(parts, sep) + pad == Join(parts[..|parts| - 1] + [parts[|parts| - 1] + pad], sep)
    decreases |parts|
  {
    var n := |parts|;
    if n > 1 {
      var tail := parts[1..];
      var padded := parts[..n - 1] + [parts[n - 1] + pad];
      assert padded[0] == parts[0];
      assert padded[1..] == tail[..|tail| - 1] + [tail[|tail| - 1] + pad];
      JoinPadLast(tail, sep, pad);
      assert Join(padded, sep) == padded[0] + sep + Join(padded[1..], sep);
      assert Join(parts, sep) == parts[0] + sep + Join(tail, sep);
    } else {
      assert parts[..n - 1] + [parts[n - 1] + pad] == [parts[0] + pad];
    }
  }

  /** A join is at least as long as its first piece. */
  lemma {:induction false} JoinLength(parts: seq<string>, sep: string)
    requires |parts| >= 1
    ensures |Join(parts, sep)| >= |parts[0]|
  {
  }

  /** Three pieces joined. */
  lemma JoinThree(a: string, b: string, c: string, d: string)
    ensures Join([a, b, c], d) == a + d + b + d + c
  {
    assert [a, b, c][1..] == [b, c] && [b, c][1..] == [c];
    assert Join([c], d) == c;
    assert Join([b, c], d) == b + d + c;
    assert Join([a, b, c], d) == a + d + (b + d + c);
  }
}
