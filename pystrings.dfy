/**
 * The handful of Python `str` operations the two scripts use, as functions on
 * `seq<char>`: `isspace`, `strip`, `startswith`, `endswith`, `find`, `count`,
 * `split(sep)` and `sep.join(parts)`.
 */
module PyStrings {
  import opened Wrappers

  /** Python's `str.isspace()` for one code point: the ASCII white space
      (space, \t, \n, \v, \f, \r), the information separators U+001C..U+001F,
      and the Unicode spaces U+0085, U+00A0, U+1680, U+2000..U+200A,
      U+2028, U+2029, U+202F, U+205F and U+3000. */
  predicate IsSpace(c: char) {
    || c == ' ' || c == '\t' || c == '\n' || c == '\r' || c == '\U{B}' || c == '\U{C}'
    || ('\U{1C}' <= c <= '\U{1F}')
    || c == '\U{85}' || c == '\U{A0}' || c == '\U{1680}'
    || ('\U{2000}' <= c <= '\U{200A}')
    || c == '\U{2028}' || c == '\U{2029}' || c == '\U{202F}' || c == '\U{205F}' || c == '\U{3000}'
  }

  predicate AllSpace(s: string) {
    forall k :: 0 <= k < |s| ==> IsSpace(s[k])
  }

  /** Neither the first nor the last character is white space. */
  predicate IsStripped(s: string) {
    |s| == 0 || (!IsSpace(s[0]) && !IsSpace(s[|s| - 1]))
  }

  /** `s.lstrip()`: drops the longest all-space prefix. */
  function LStrip(s: string): string
    decreases |s|
  {
    if |s| > 0 && IsSpace(s[0]) then LStrip(s[1..]) else s
  }

  /** `s.rstrip()`: drops the longest all-space suffix. */
  function RStrip(s: string): string
    decreases |s|
  {
    if |s| > 0 && IsSpace(s[|s| - 1]) then RStrip(s[..|s| - 1]) else s
  }

  /** `s.strip()`. */
  function Strip(s: string): string {
    RStrip(LStrip(s))
  }

  /** lstrip leaves a suffix of s that does not start with white space, and
      what it removed is all white space. */
  lemma {:induction false} LStripSpec(s: string)
    ensures |LStrip(s)| <= |s| && LStrip(s) == s[|s| - |LStrip(s)|..]
    ensures AllSpace(s[..|s| - |LStrip(s)|])
    ensures |LStrip(s)| == 0 || !IsSpace(LStrip(s)[0])
    decreases |s|
  {
    if |s| > 0 && IsSpace(s[0]) {
      var t := s[1..];
      LStripSpec(t);
      var n := |t| - |LStrip(t)|;
      assert s[|s| - |LStrip(s)|..] == t[n..];
      var u := s[..n + 1];
      forall k | 0 <= k < n + 1 ensures IsSpace(u[k]) {
        if k > 0 { assert u[k] == t[..n][k - 1]; }
      }
    } else {
      assert s[..0] == [];
    }
  }

  /** rstrip leaves a prefix of s that does not end with white space, and
      what it removed is all white space. */
  lemma {:induction false} RStripSpec(s: string)
    ensures |RStrip(s)| <= |s| && RStrip(s) == s[..|RStrip(s)|]
    ensures AllSpace(s[|RStrip(s)|..])
    ensures |RStrip(s)| == 0 || !IsSpace(RStrip(s)[|RStrip(s)| - 1])
    decreases |s|
  {
    if |s| > 0 && IsSpace(s[|s| - 1]) {
      var t := s[..|s| - 1];
      RStripSpec(t);
      var m := |RStrip(t)|;
      assert s[..m] == t[..m];
      forall k | 0 <= k < |s| - m ensures IsSpace(s[m..][k]) {
        if k < |t| - m { assert s[m..][k] == t[m..][k]; }
      }
    } else {
      assert s[|s|..] == [];
    }
  }

  /** Strip(s) is the infix s[i..j] left after removing white space at both
      ends, and it has no white space at either end. */
  lemma StripBounds(s: string) returns (i: nat, j: nat)
    ensures i <= j <= |s| && Strip(s) == s[i..j]
    ensures AllSpace(s[..i]) && AllSpace(s[j..])
    ensures IsStripped(Strip(s))
  {
    LStripSpec(s);
    var l := LStrip(s);
    RStripSpec(l);
    var r := RStrip(l);
    i := |s| - |l|;
    j := i + |r|;
    assert r == s[i..j];
    forall k | 0 <= k < |s| - j ensures IsSpace(s[j..][k]) {
      assert s[j..][k] == l[|r|..][k];
    }
    if |r| > 0 && |l| > 0 {
      assert r[0] == l[0];
    }
  }

  /** The result of strip has no white space at either end. */
  lemma StripStripped(s: string)
    ensures IsStripped(Strip(s))
    ensures |Strip(s)| <= |s|
  {
    var i, j := StripBounds(s);
  }

  /** lstrip removes exactly an all-space prefix that is followed by a
      non-space character (or by nothing). */
  lemma {:induction false} LStripExact(s: string, i: nat)
    requires i <= |s| && AllSpace(s[..i])
    requires i == |s| || !IsSpace(s[i])
    ensures LStrip(s) == s[i..]
    decreases i
  {
    if i > 0 {
      assert s[..i][0] == s[0];
      var u := s[1..][..i - 1];
      forall k | 0 <= k < i - 1 ensures IsSpace(u[k]) {
        assert u[k] == s[..i][k + 1];
      }
      LStripExact(s[1..], i - 1);
      assert s[1..][i - 1..] == s[i..];
    }
  }

  /** rstrip removes exactly an all-space suffix that is preceded by a
      non-space character (or by nothing). */
  lemma {:induction false} RStripExact(s: string, j: nat)
    requires j <= |s| && AllSpace(s[j..])
    requires j == 0 || !IsSpace(s[j - 1])
    ensures RStrip(s) == s[..j]
    decreases |s| - j
  {
    if j < |s| {
      var t := s[..|s| - 1];
      assert s[j..][|s| - 1 - j] == s[|s| - 1];
      forall k | 0 <= k < |t| - j ensures IsSpace(t[j..][k]) {
        assert t[j..][k] == s[j..][k];
      }
      RStripExact(t, j);
      assert t[..j] == s[..j];
    }
  }

  /** Strip is determined by its two properties: any split of s into an
      all-space prefix, a stripped middle and an all-space suffix has Strip(s)
      as its middle. */
  lemma StripUnique(s: string, i: nat, j: nat)
    requires i <= j <= |s|
    requires AllSpace(s[..i]) && AllSpace(s[j..]) && IsStripped(s[i..j])
    ensures Strip(s) == s[i..j]
  {
    if i == j {
      forall k | 0 <= k < |s| ensures IsSpace(s[..|s|][k]) {
        if k < i { assert s[..i][k] == s[k]; } else { assert s[j..][k - j] == s[k]; }
      }
      LStripExact(s, |s|);
    } else {
      assert s[i] == s[i..j][0];
      LStripExact(s, i);
      var l := s[i..];
      assert l[j - i..] == s[j..];
      assert l[j - i - 1] == s[i..j][j - i - 1];
      RStripExact(l, j - i);
    }
  }

  /** Stripping twice is stripping once. */
  lemma StripIdempotent(s: string)
    ensures Strip(Strip(s)) == Strip(s)
  {
    var r := Strip(s);
    StripStripped(s);
    assert r[..0] == [] && r[|r|..] == [] && r[0..|r|] == r;
    StripUnique(r, 0, |r|);
  }

  predicate StartsWith(s: string, prefix: string) {
    prefix <= s
  }

  predicate EndsWith(s: string, suffix: string) {
    |suffix| <= |s| && s[|s| - |suffix|..] == suffix
  }

  /** `pat` occurs in `s` starting at index i. */
  predicate OccursAt(s: string, pat: string, i: int) {
    0 <= i && i + |pat| <= |s| && s[i..i + |pat|] == pat
  }

  /** `s.find(pat, start)`: the leftmost occurrence at or after `start`, or -1. */
  function FindFrom(s: string, pat: string, start: nat): (r: int)
    requires start <= |s|
    ensures r == -1 || (start <= r && OccursAt(s, pat, r))
    ensures forall k :: start <= k && (r == -1 || k < r) ==> !OccursAt(s, pat, k)
    decreases |s| - start
  {
    if start + |pat| > |s| then -1
    else if s[start..start + |pat|] == pat then start
    else FindFrom(s, pat, start + 1)
  }

  /** `s.find(pat)`. */
  function Find(s: string, pat: string): int {
    FindFrom(s, pat, 0)
  }

  /** `pat in s`. */
  predicate Contains(s: string, pat: string) {
    Find(s, pat) >= 0
  }

  /** Python's `s.count(sep)`: non-overlapping occurrences, scanned left to right. */
  function Count(s: string, sep: string): nat
    requires |sep| > 0
    decreases |s|
  {
    var i := Find(s, sep);
    if i < 0 then 0 else 1 + Count(s[i + |sep|..], sep)
  }

  /** `s.split(sep)` for a non-empty separator: cut at each leftmost,
      non-overlapping occurrence of `sep`. */
  function Split(s: string, sep: string): (parts: seq<string>)
    requires |sep| > 0
    ensures |parts| >= 1
    decreases |s|
  {
    var i := Find(s, sep);
    if i < 0 then [s] else [s[..i]] + Split(s[i + |sep|..], sep)
  }

  /** `sep.join(parts)`. */
  function Join(parts: seq<string>, sep: string): string
    decreases |parts|
  {
    if |parts| == 0 then []
    else if |parts| == 1 then parts[0]
    else parts[0] + sep + Join(parts[1..], sep)
  }

  /** Total length of a list of strings. */
  function SumLengths(parts: seq<string>): nat
    decreases |parts|
  {
    if |parts| == 0 then 0 else |parts[0]| + SumLengths(parts[1..])
  }

  // ---------------------------------------------------------------- find

  /** Any occurrence makes `find` succeed. */
  lemma OccursContains(s: string, pat: string, i: int)
    requires OccursAt(s, pat, i)
    ensures Contains(s, pat) && Find(s, pat) <= i
  {
  }

  /** Extending the text on the right does not move the leftmost occurrence. */
  lemma FindExtend(a: string, b: string, pat: string)
    requires Find(a, pat) >= 0
    ensures Find(a + b, pat) == Find(a, pat)
  {
    var k := Find(a, pat);
    assert (a + b)[k..k + |pat|] == a[k..k + |pat|];
    OccursContains(a + b, pat, k);
    var r := Find(a + b, pat);
    if r < k {
      assert (a + b)[r..r + |pat|] == a[r..r + |pat|];
      assert OccursAt(a, pat, r);
    }
  }

  /** An occurrence inside an infix of `s` is an occurrence in `s`. */
  lemma OccursInInfix(s: string, off: nat, len: nat, pat: string, i: int)
    requires off + len <= |s|
    requires OccursAt(s[off..off + len], pat, i)
    ensures OccursAt(s, pat, off + i)
  {
    var t := s[off..off + len];
    var u := s[off + i..off + i + |pat|];
    forall k | 0 <= k < |pat| ensures u[k] == pat[k] {
      assert pat[k] == t[i..i + |pat|][k] == t[i + k];
    }
  }

  // ---------------------------------------------------------------- split

  /** Joining the pieces with the separator gives back the text exactly. */
  lemma {:induction false} SplitJoin(s: string, sep: string)
    requires |sep| > 0
    ensures Join(Split(s, sep), sep) == s
    decreases |s|
  {
    var i := Find(s, sep);
    if i >= 0 {
      var tail := s[i + |sep|..];
      SplitJoin(tail, sep);
      SplitStep(s, sep);
      FoundSeparator(s, sep);
    }
  }

  /** The text around the leftmost occurrence of the separator. */
  lemma FoundSeparator(s: string, sep: string)
    requires Find(s, sep) >= 0
    ensures s == s[..Find(s, sep)] + sep + s[Find(s, sep) + |sep|..]
  {
    var i := Find(s, sep);
    assert s[i..i + |sep|] == sep;
    assert s == s[..i] + s[i..i + |sep|] + s[i + |sep|..];
  }

  /** Joining a split whose first cut is at the leftmost separator. */
  lemma SplitStep(s: string, sep: string)
    requires |sep| > 0 && Find(s, sep) >= 0
    ensures Join(Split(s, sep), sep)
            == s[..Find(s, sep)] + sep + Join(Split(s[Find(s, sep) + |sep|..], sep), sep)
  {
    var i := Find(s, sep);
    var rest := Split(s[i + |sep|..], sep);
    var parts := [s[..i]] + rest;
    assert Split(s, sep) == parts;
    assert parts[1..] == rest;
  }

  /** One piece per non-overlapping occurrence, plus one. */
  lemma {:induction false} SplitCount(s: string, sep: string)
    requires |sep| > 0
    ensures |Split(s, sep)| == Count(s, sep) + 1
    ensures Count(s, sep) * |sep| <= |s|
    decreases |s|
  {
    var i := Find(s, sep);
    if i >= 0 {
      var rest := s[i + |sep|..];
      SplitCount(rest, sep);
      var c := Count(rest, sep);
      assert Count(s, sep) == 1 + c;
      MulStep(c, |sep|);
    }
  }

  lemma MulStep(c: nat, n: nat)
    ensures (1 + c) * n == n + c * n
  {
  }

  /** No piece contains the separator. */
  lemma {:induction false} SplitPiecesFree(s: string, sep: string)
    requires |sep| > 0
    ensures forall k :: 0 <= k < |Split(s, sep)| ==> !Contains(Split(s, sep)[k], sep)
    decreases |s|
  {
    var i := Find(s, sep);
    if i >= 0 {
      SplitPiecesFree(s[i + |sep|..], sep);
      var head := s[..i];
      if Contains(head, sep) {
        var j := Find(head, sep);
        assert head[j..j + |sep|] == s[j..j + |sep|];
        assert OccursAt(s, sep, j);
        assert false;
      }
      forall k | 0 <= k < |Split(s, sep)|
        ensures !Contains(Split(s, sep)[k], sep)
      {
        if k > 0 { assert Split(s, sep)[k] == Split(s[i + |sep|..], sep)[k - 1]; }
      }
    }
  }

  /** An occurrence with none before it is what `find` returns. */
  lemma FindLeftmost(u: string, pat: string, i: nat)
    requires OccursAt(u, pat, i)
    requires forall k :: 0 <= k < i ==> !OccursAt(u, pat, k)
    ensures Find(u, pat) == i
  {
  }

  /** Every cut is the leftmost one: each piece but the last, followed by
      the separator, has its first occurrence of the separator right there.
      With `SplitJoin` this determines the pieces even where occurrences
      overlap, as in a run of four backticks. */
  lemma {:induction false} SplitLeftmost(s: string, sep: string)
    requires |sep| > 0
    ensures forall k :: 0 <= k < |Split(s, sep)| - 1 ==>
              Find(Split(s, sep)[k] + sep, sep) == |Split(s, sep)[k]|
    decreases |s|
  {
    var i := Find(s, sep);
    if i >= 0 {
      FirstCutLeftmost(s, sep);
      SplitLeftmost(s[i + |sep|..], sep);
      forall k | 0 < k < |Split(s, sep)| - 1
        ensures Find(Split(s, sep)[k] + sep, sep) == |Split(s, sep)[k]|
      {
        assert Split(s, sep)[k] == Split(s[i + |sep|..], sep)[k - 1];
      }
    }
  }

  /** The text before the first occurrence, followed by the separator,
      finds the separator where the text did. */
  lemma FirstCutLeftmost(s: string, sep: string)
    requires |sep| > 0 && Find(s, sep) >= 0
    ensures Find(s[..Find(s, sep)] + sep, sep) == Find(s, sep)
  {
    var i := Find(s, sep);
    var u := s[..i] + sep;
    assert u == s[..i + |sep|];
    forall k | 0 <= k < i
      ensures !OccursAt(u, sep, k)
    {
      assert !OccursAt(s, sep, k);
      assert u[k..k + |sep|] == s[k..k + |sep|];
    }
    FindLeftmost(u, sep, i);
  }

  /** Every piece is an infix of the text, at the offset the join puts it. */
  lemma SplitPieceAt(s: string, sep: string, k: nat) returns (off: nat)
    requires |sep| > 0 && k < |Split(s, sep)|
    ensures off + |Split(s, sep)[k]| <= |s|
    ensures s[off..off + |Split(s, sep)[k]|] == Split(s, sep)[k]
  {
    SplitJoin(s, sep);
    JoinPartAt(Split(s, sep), sep, k);
    off := JoinOffset(Split(s, sep), sep, k);
  }

  // ---------------------------------------------------------------- join

  /** Length of a join: the parts plus one separator between neighbours. */
  lemma {:induction false} JoinLength(parts: seq<string>, sep: string)
    requires |parts| >= 1
    ensures |Join(parts, sep)| == SumLengths(parts) + |sep| * (|parts| - 1)
    decreases |parts|
  {
    if |parts| > 1 {
      JoinLength(parts[1..], sep);
      assert |sep| * (|parts| - 1) == |sep| + |sep| * (|parts| - 2);
    }
  }

  /** Where part k starts in the joined text: the parts before it and one
      separator after each of them. */
  function JoinOffset(parts: seq<string>, sep: string, k: nat): nat
    requires k <= |parts|
  {
    SumLengths(parts[..k]) + |sep| * k
  }

  /** The joined text holds every part, in order, at its offset. */
  lemma {:induction false} JoinPartAt(parts: seq<string>, sep: string, k: nat)
    requires k < |parts|
    ensures JoinOffset(parts, sep, k) + |parts[k]| <= |Join(parts, sep)|
    ensures Join(parts, sep)[JoinOffset(parts, sep, k)..JoinOffset(parts, sep, k) + |parts[k]|] == parts[k]
    decreases |parts|
  {
    var j := Join(parts, sep);
    if k == 0 {
      assert parts[..0] == [];
      if |parts| > 1 { assert j == parts[0] + (sep + Join(parts[1..], sep)); }
    } else {
      var tail := parts[1..];
      JoinPartAt(tail, sep, k - 1);
      var o := JoinOffset(tail, sep, k - 1);
      assert parts[..k] == [parts[0]] + tail[..k - 1];
      assert parts[..k][1..] == tail[..k - 1];
      assert SumLengths(parts[..k]) == |parts[0]| + SumLengths(tail[..k - 1]);
      assert |sep| * k == |sep| + |sep| * (k - 1);
      assert JoinOffset(parts, sep, k) == |parts[0]| + |sep| + o;
      var pre := parts[0] + sep;
      assert j == pre + Join(tail, sep);
      assert tail[k - 1] == parts[k];
      assert j[|pre| + o..|pre| + o + |parts[k]|] == Join(tail, sep)[o..o + |parts[k]|];
    }
  }

  /** Offsets grow with k, so the parts appear in their original order. */
  lemma {:induction false} JoinOffsetsIncrease(parts: seq<string>, sep: string, k: nat)
    requires k + 1 <= |parts|
    ensures JoinOffset(parts, sep, k + 1) == JoinOffset(parts, sep, k) + |parts[k]| + |sep|
  {
    SumLengthsSnoc(parts[..k], parts[k]);
    assert parts[..k + 1] == parts[..k] + [parts[k]];
  }

  lemma {:induction false} SumLengthsSnoc(parts: seq<string>, last: string)
    ensures SumLengths(parts + [last]) == SumLengths(parts) + |last|
    decreases |parts|
  {
    if |parts| > 0 {
      assert (parts + [last])[1..] == parts[1..] + [last];
      SumLengthsSnoc(parts[1..], last);
    }
  }

  /** A part that does not contain the separator and does not end in one of
      the separator's characters meets the separator only where it is
      appended. */
  lemma SeparatorBoundary(p: string, sep: string)
    requires |sep| > 0 && !Contains(p, sep)
    requires |p| == 0 || p[|p| - 1] !in sep
    ensures Find(p + sep, sep) == |p|
  {
    var s := p + sep;
    assert s[|p|..|p| + |sep|] == sep;
    OccursContains(s, sep, |p|);
    forall k | 0 <= k < |p| ensures !OccursAt(s, sep, k) {
      if k + |sep| <= |p| {
        assert s[k..k + |sep|] == p[k..k + |sep|];
        assert !OccursAt(p, sep, k);
      } else {
        assert s[|p| - 1] == p[|p| - 1] && s[k..k + |sep|][|p| - 1 - k] == s[|p| - 1];
      }
    }
  }

  /** Splitting a join gives back the parts, provided no part contains the
      separator and every part but the last ends in a character that is not
      in the separator. */
  lemma {:induction false} JoinSplit(parts: seq<string>, sep: string)
    requires |sep| > 0 && |parts| >= 1
    requires forall k :: 0 <= k < |parts| ==> !Contains(parts[k], sep)
    requires forall k :: 0 <= k < |parts| - 1 ==> |parts[k]| == 0 || parts[k][|parts[k]| - 1] !in sep
    ensures Split(Join(parts, sep), sep) == parts
    decreases |parts|
  {
    if |parts| > 1 {
      var tail := parts[1..];
      JoinFirstCut(parts, sep);
      JoinSplit(tail, sep);
      assert parts == [parts[0]] + tail;
    }
  }

  /** The first cut of a join falls right after its first part. */
  lemma JoinFirstCut(parts: seq<string>, sep: string)
    requires |sep| > 0 && |parts| >= 2
    requires !Contains(parts[0], sep)
    requires |parts[0]| == 0 || parts[0][|parts[0]| - 1] !in sep
    ensures Find(Join(parts, sep), sep) == |parts[0]|
    ensures Join(parts, sep)[..|parts[0]|] == parts[0]
    ensures Join(parts, sep)[|parts[0]| + |sep|..] == Join(parts[1..], sep)
  {
    var s := Join(parts, sep);
    var p := parts[0];
    assert s == (p + sep) + Join(parts[1..], sep);
    SeparatorBoundary(p, sep);
    FindExtend(p + sep, Join(parts[1..], sep), sep);
  }

  // ---------------------------------------------------------------- f-strings

  /** How an f-string renders a value that is a `str` or `None`. */
  function Format(v: Option<string>): string {
    match v
    case Some(s) => s
    case None => "None"
  }

  /** The text between a known prefix and a known suffix, when `s` has both:
      the inverse of filling a one-hole template. */
  function Between(s: string, prefix: string, suffix: string): (r: Option<string>)
    ensures r.Some? ==> s == prefix + r.value + suffix
  {
    if |prefix| + |suffix| <= |s| && s[..|prefix|] == prefix && s[|s| - |suffix|..] == suffix then
      assert s == s[..|prefix|] + s[|prefix|..|s| - |suffix|] + s[|s| - |suffix|..];
      Some(s[|prefix|..|s| - |suffix|])
    else None
  }

  /** Filling the hole and reading it back gives the text that went in. */
  lemma BetweenFill(prefix: string, middle: string, suffix: string)
    ensures Between(prefix + middle + suffix, prefix, suffix) == Some(middle)
  {
    var s := prefix + middle + suffix;
    assert s[..|prefix|] == prefix;
    assert s[|s| - |suffix|..] == suffix;
    assert s[|prefix|..|s| - |suffix|] == middle;
  }

  /** The middle of a concatenation occurs right after its first part. */
  lemma OccursInConcat(a: string, b: string, c: string)
    ensures StartsWith(a + b + c, a)
    ensures OccursAt(a + b + c, b, |a|)
  {
    assert (a + b + c)[..|a|] == a;
    assert (a + b + c)[|a|..|a| + |b|] == b;
  }

}
