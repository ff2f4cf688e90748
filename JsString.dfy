/**
 * The JavaScript string built-ins the adapter relies on (`trim`, `toLowerCase`,
 * `includes`/`indexOf`, `replace` with a string pattern, `Array.prototype.join`
 * and the decimal rendering of a number), over `string == seq<char>`.
 */
module JsString {
  import opened Wrappers

  predicate IsDigit(c: char) { '0' <= c <= '9' }

  predicate AllDigits(s: string) { forall k :: 0 <= k < |s| ==> IsDigit(s[k]) }

  /** The characters `trim` removes: ASCII whitespace, line terminators, NBSP and BOM. */
  predicate IsWhitespace(c: char) {
    c == ' ' || c == '\t' || c == '\n' || c == '\r' || c == '\U{0B}' || c == '\U{0C}'
    || c == '\U{A0}' || c == '\U{FEFF}' || c == '\U{2028}' || c == '\U{2029}'
  }

  /** `s[lo..hi]` is all that is left once the whitespace around it is removed. */
  ghost predicate Padding(s: string, lo: int, hi: int) {
    0 <= lo <= hi <= |s|
    && (forall k :: 0 <= k < lo ==> IsWhitespace(s[k]))
    && (forall k :: hi <= k < |s| ==> IsWhitespace(s[k]))
  }

  // ---------------------------------------------------------------- trim

  /** `trimStart`: drops the whitespace at the front. */
  function TrimStart(s: string): (r: string)
    ensures |r| <= |s|
  {
    if s != [] && IsWhitespace(s[0]) then TrimStart(s[1..]) else s
  }

  /** `trimStart` removes a whitespace prefix and nothing else. */
  lemma {:induction false} TrimStartSpec(s: string)
    ensures var r := TrimStart(s);
      r == s[|s| - |r|..]
      && (forall k :: 0 <= k < |s| - |r| ==> IsWhitespace(s[k]))
      && (r == [] || !IsWhitespace(r[0]))
  {
    if s != [] && IsWhitespace(s[0]) {
      TrimStartSpec(s[1..]);
      assert forall k :: 1 <= k < |s| ==> s[k] == s[1..][k - 1];
    }
  }

  /** `trimEnd`: drops the whitespace at the back. */
  function TrimEnd(s: string): (r: string)
    ensures |r| <= |s|
  {
    if s != [] && IsWhitespace(s[|s| - 1]) then TrimEnd(s[..|s| - 1]) else s
  }

  /** `trimEnd` removes a whitespace suffix and nothing else. */
  lemma {:induction false} TrimEndSpec(s: string)
    ensures var r := TrimEnd(s);
      r == s[..|r|]
      && (forall k :: |r| <= k < |s| ==> IsWhitespace(s[k]))
      && (r == [] || !IsWhitespace(r[|r| - 1]))
  {
    if s != [] && IsWhitespace(s[|s| - 1]) {
      TrimEndSpec(s[..|s| - 1]);
      assert forall k :: 0 <= k < |s| - 1 ==> s[k] == s[..|s| - 1][k];
    }
  }

  /** Where the trimmed text starts inside `s`. */
  function TrimOffset(s: string): nat { |s| - |TrimStart(s)| }

  /** `String.prototype.trim`. */
  function Trim(s: string): (r: string)
    ensures |r| <= |s|
  {
    TrimEnd(TrimStart(s))
  }

  /** `trim` leaves the slice of `s` between its leading and trailing whitespace. */
  lemma TrimSpec(s: string)
    ensures var r := Trim(s);
      (r == [] || (!IsWhitespace(r[0]) && !IsWhitespace(r[|r| - 1])))
      && Padding(s, TrimOffset(s), TrimOffset(s) + |r|)
      && r == s[TrimOffset(s)..TrimOffset(s) + |r|]
  {
    var t := TrimStart(s);
    var r := TrimEnd(t);
    TrimStartSpec(s);
    TrimEndSpec(t);
    assert r != [] ==> r[0] == t[0];
    assert forall k :: |r| <= k < |t| ==> t[k] == s[TrimOffset(s) + k];
  }

  /** Trims every element, as `.map(x => x.trim())` does. */
  function TrimAll(xs: seq<string>): (ys: seq<string>)
    ensures |ys| == |xs|
  {
    seq(|xs|, k requires 0 <= k < |xs| => Trim(xs[k]))
  }

  /** Trimming one more element extends the trimmed prefix by that element. */
  lemma TrimAllSnoc(xs: seq<string>, g: nat)
    requires g < |xs|
    ensures TrimAll(xs[..g + 1]) == TrimAll(xs[..g]) + [Trim(xs[g])]
  {
    var l := TrimAll(xs[..g + 1]);
    var r := TrimAll(xs[..g]) + [Trim(xs[g])];
    assert |l| == |r|;
    forall k | 0 <= k < |l|
      ensures l[k] == r[k]
    {
      assert xs[..g + 1][k] == xs[k];
      if k < g {
        assert xs[..g][k] == xs[k];
      }
    }
  }

  // ---------------------------------------------------------------- toLowerCase

  function LowerChar(c: char): char {
    if 'A' <= c <= 'Z' then (c as int + 32) as char else c
  }

  /** `String.prototype.toLowerCase`, restricted to the ASCII letters. */
  function ToLower(s: string): (r: string)
    ensures |r| == |s|
  {
    seq(|s|, k requires 0 <= k < |s| => LowerChar(s[k]))
  }

  lemma ToLowerSlice(s: string, lo: int, hi: int)
    requires 0 <= lo <= hi <= |s|
    ensures ToLower(s[lo..hi]) == ToLower(s)[lo..hi]
  {
    assert forall k :: 0 <= k < hi - lo ==> ToLower(s[lo..hi])[k] == ToLower(s)[lo..hi][k];
  }

  // ---------------------------------------------------------------- indexOf / includes

  /** `p` occurs in `s` starting at index `i`. */
  ghost predicate OccursAt(s: string, p: string, i: int) {
    0 <= i && i + |p| <= |s| && s[i..i + |p|] == p
  }

  /** The first index at or after `from` where `p` occurs in `s`. */
  function IndexOfFrom(s: string, p: string, from: nat): (r: Option<nat>)
    decreases |s| - from
    ensures r.Some? ==> from <= r.value && r.value + |p| <= |s|
  {
    if from + |p| > |s| then None
    else if s[from..from + |p|] == p then Some(from)
    else IndexOfFrom(s, p, from + 1)
  }

  /** The scan finds an occurrence, and no occurrence is skipped on the way. */
  lemma {:induction false} IndexOfFromSpec(s: string, p: string, from: nat)
    decreases |s| - from
    ensures var r := IndexOfFrom(s, p, from);
      (r.Some? ==> OccursAt(s, p, r.value))
      && forall i :: from <= i && (r.None? || i < r.value) ==> !OccursAt(s, p, i)
  {
    if from + |p| <= |s| && s[from..from + |p|] != p {
      IndexOfFromSpec(s, p, from + 1);
    }
  }

  /** `String.prototype.indexOf`, with `None` for JavaScript's -1. */
  function IndexOf(s: string, p: string): (r: Option<nat>)
    ensures r.Some? ==> r.value + |p| <= |s|
  {
    IndexOfFrom(s, p, 0)
  }

  /** `indexOf` returns the first occurrence, and nothing exactly when there is none. */
  lemma IndexOfSpec(s: string, p: string)
    ensures var r := IndexOf(s, p);
      (r.Some? ==> OccursAt(s, p, r.value) && forall i :: 0 <= i < r.value ==> !OccursAt(s, p, i))
      && (r.None? ==> forall i :: !OccursAt(s, p, i))
  {
    IndexOfFromSpec(s, p, 0);
  }

  /** `String.prototype.includes`. */
  function Contains(s: string, p: string): bool
  {
    IndexOf(s, p).Some?
  }

  /** `includes` holds exactly when the word occurs at some index. */
  lemma ContainsSpec(s: string, p: string)
    ensures Contains(s, p) <==> exists i :: OccursAt(s, p, i)
  {
    IndexOfSpec(s, p);
  }

  /** `String.prototype.startsWith`. */
  predicate StartsWith(s: string, p: string) {
    |p| <= |s| && s[..|p|] == p
  }

  /** A slice of a slice is a slice of the whole. */
  lemma SliceOfSlice(t: string, lo: int, hi: int, i: int, j: int)
    requires 0 <= lo <= hi <= |t| && 0 <= i <= j <= hi - lo
    ensures t[lo..hi][i..j] == t[lo + i..lo + j]
  {
    assert forall k :: 0 <= k < j - i ==> t[lo..hi][i..j][k] == t[lo + i..lo + j][k];
  }

  /** A word found in the slice `t[lo..hi]` is found in `t`, shifted by `lo`. */
  lemma ContainsInSlice(t: string, lo: int, hi: int, p: string)
    requires 0 <= lo <= hi <= |t|
    ensures Contains(t[lo..hi], p) ==> Contains(t, p)
  {
    ContainsSpec(t[lo..hi], p);
    ContainsSpec(t, p);
    if Contains(t[lo..hi], p) {
      var i :| OccursAt(t[lo..hi], p, i);
      SliceOfSlice(t, lo, hi, i, i + |p|);
      assert OccursAt(t, p, lo + i);
    }
  }

  /** An occurrence of a whitespace-free word cannot overlap the padding around `t[lo..hi]`. */
  lemma OccurrenceAvoidsPadding(t: string, lo: int, hi: int, p: string, i: int)
    requires Padding(t, lo, hi) && OccursAt(t, p, i)
    requires p != [] && forall k :: 0 <= k < |p| ==> !IsWhitespace(p[k])
    ensures lo <= i && i + |p| <= hi
  {
    assert t[i] == p[0];
    assert t[i + |p| - 1] == p[|p| - 1];
  }

  /** A whitespace-free word found in `t` lies inside the non-padding slice `t[lo..hi]`. */
  lemma ContainsAvoidsPadding(t: string, lo: int, hi: int, p: string)
    requires Padding(t, lo, hi)
    requires p != [] && forall k :: 0 <= k < |p| ==> !IsWhitespace(p[k])
    ensures Contains(t, p) ==> Contains(t[lo..hi], p)
  {
    ContainsSpec(t[lo..hi], p);
    ContainsSpec(t, p);
    if Contains(t, p) {
      var i :| OccursAt(t, p, i);
      OccurrenceAvoidsPadding(t, lo, hi, p, i);
      SliceOfSlice(t, lo, hi, i - lo, i - lo + |p|);
      assert OccursAt(t[lo..hi], p, i - lo);
    }
  }

  /**
   * A word without whitespace is found in the trimmed slice `t[lo..hi]` exactly
   * when it is found in `t`: it cannot overlap the padding.
   */
  lemma ContainsIgnoresPadding(t: string, lo: int, hi: int, p: string)
    requires Padding(t, lo, hi)
    requires p != [] && forall k :: 0 <= k < |p| ==> !IsWhitespace(p[k])
    ensures Contains(t[lo..hi], p) <==> Contains(t, p)
  {
    ContainsInSlice(t, lo, hi, p);
    ContainsAvoidsPadding(t, lo, hi, p);
  }

  /** Lower-casing commutes with trimming as far as finding a whitespace-free word goes. */
  lemma ContainsLowerTrimmed(s: string, p: string)
    requires p != [] && forall k :: 0 <= k < |p| ==> !IsWhitespace(p[k])
    ensures Contains(ToLower(Trim(s)), p) <==> Contains(ToLower(s), p)
  {
    TrimSpec(s);
    var lo := TrimOffset(s);
    var hi := lo + |Trim(s)|;
    var t := ToLower(s);
    ToLowerSlice(s, lo, hi);
    assert Padding(t, lo, hi) by {
      assert forall k :: 0 <= k < |s| ==> t[k] == LowerChar(s[k]);
    }
    ContainsIgnoresPadding(t, lo, hi, p);
  }

  // ---------------------------------------------------------------- replace

  /**
   * `String.prototype.replace` with a string pattern and a replacement without
   * `$` patterns: only the first occurrence of `pat` is replaced.
   */
  function ReplaceFirst(s: string, pat: string, rep: string): (r: string)
    ensures !Contains(s, pat) ==> r == s
    ensures Contains(s, pat) ==> |r| == |s| - |pat| + |rep|
  {
    match IndexOf(s, pat)
    case None => s
    case Some(i) => s[..i] + rep + s[i + |pat|..]
  }

  /** When the first occurrence of `pat` is at `i`, the replacement is spliced in there. */
  lemma ReplaceFirstAt(s: string, pat: string, rep: string, i: nat)
    requires OccursAt(s, pat, i) && forall j :: 0 <= j < i ==> !OccursAt(s, pat, j)
    ensures ReplaceFirst(s, pat, rep) == s[..i] + rep + s[i + |pat|..]
  {
    IndexOfSpec(s, pat);
  }

  /** Cutting `s[i..i + m]` out shifts every later slice left by `m`. */
  lemma CutKeepsLater(s: string, i: nat, m: nat, j: nat, n: nat)
    requires i + m <= j && j + n <= |s|
    ensures (s[..i] + s[i + m..])[j - m..j - m + n] == s[j..j + n]
  {
    SliceOfAppend(s[..i], s[i + m..], j - m, j - m + n);
    SliceOfSlice(s, i + m, |s|, j - m - i, j - m - i + n);
  }

  /** Only the first occurrence is replaced: a later one survives, shifted left by the pattern's length. */
  lemma ReplaceFirstKeepsLater(s: string, pat: string, j: nat)
    requires OccursAt(s, pat, j)
    requires IndexOf(s, pat).Some? && IndexOf(s, pat).value + |pat| <= j
    ensures OccursAt(ReplaceFirst(s, pat, ""), pat, j - |pat|)
  {
    var i := IndexOf(s, pat).value;
    IndexOfSpec(s, pat);
    ReplaceFirstAt(s, pat, "", i);
    CutKeepsLater(s, i, |pat|, j, |pat|);
  }

  // ---------------------------------------------------------------- join

  /** `Array.prototype.join(sep)`. */
  function Join(parts: seq<string>, sep: string): string
  {
    if |parts| == 0 then ""
    else if |parts| == 1 then parts[0]
    else parts[0] + sep + Join(parts[1..], sep)
  }

  /** Where `parts[k]` starts in `Join(parts, sep)`. */
  function JoinOffset(parts: seq<string>, sep: string, k: nat): nat
    requires k <= |parts|
  {
    if k == 0 then 0 else |parts[0]| + |sep| + JoinOffset(parts[1..], sep, k - 1)
  }

  /** A slice lying wholly in the right operand of a concatenation. */
  lemma SliceOfAppend(a: string, b: string, lo: int, hi: int)
    requires |a| <= lo <= hi <= |a| + |b|
    ensures (a + b)[lo..hi] == b[lo - |a|..hi - |a|]
  {
    assert forall k :: 0 <= k < hi - lo ==> (a + b)[lo..hi][k] == b[lo - |a|..hi - |a|][k];
  }

  lemma JoinCons(parts: seq<string>, sep: string)
    requires |parts| >= 2
    ensures Join(parts, sep) == parts[0] + (sep + Join(parts[1..], sep))
  {
  }

  /** Every part appears whole, in order, at its offset in the join. */
  lemma {:induction false} JoinPart(parts: seq<string>, sep: string, k: nat)
    requires k < |parts|
    ensures JoinOffset(parts, sep, k) + |parts[k]| <= |Join(parts, sep)|
    ensures Join(parts, sep)[JoinOffset(parts, sep, k)..JoinOffset(parts, sep, k) + |parts[k]|] == parts[k]
  {
    if |parts| >= 2 {
      JoinCons(parts, sep);
      var head := parts[0] + sep;
      assert Join(parts, sep) == head + Join(parts[1..], sep);
      if k > 0 {
        JoinPart(parts[1..], sep, k - 1);
        var o := JoinOffset(parts[1..], sep, k - 1);
        SliceOfAppend(head, Join(parts[1..], sep), |head| + o, |head| + o + |parts[k]|);
      }
    }
  }

  /** Consecutive parts are separated by exactly one `sep`. */
  lemma {:induction false} JoinSeparator(parts: seq<string>, sep: string, k: nat)
    requires k + 1 < |parts|
    ensures JoinOffset(parts, sep, k + 1) == JoinOffset(parts, sep, k) + |parts[k]| + |sep|
    ensures JoinOffset(parts, sep, k + 1) <= |Join(parts, sep)|
    ensures Join(parts, sep)[JoinOffset(parts, sep, k) + |parts[k]|..JoinOffset(parts, sep, k + 1)] == sep
  {
    JoinCons(parts, sep);
    var head := parts[0] + sep;
    assert Join(parts, sep) == head + Join(parts[1..], sep);
    if k == 0 {
      JoinPart(parts[1..], sep, 0);
      assert Join(parts, sep)[|parts[0]|..|head|] == sep;
    } else {
      JoinSeparator(parts[1..], sep, k - 1);
      var o := JoinOffset(parts[1..], sep, k - 1);
      var o2 := JoinOffset(parts[1..], sep, k);
      SliceOfAppend(head, Join(parts[1..], sep), |head| + o + |parts[k]|, |head| + o2);
    }
  }

  /** Nothing follows the last part. */
  lemma {:induction false} JoinLength(parts: seq<string>, sep: string)
    requires parts != []
    ensures |Join(parts, sep)| == JoinOffset(parts, sep, |parts| - 1) + |parts[|parts| - 1]|
  {
    if |parts| >= 2 {
      JoinCons(parts, sep);
      JoinLength(parts[1..], sep);
    }
  }

  // ---------------------------------------------------------------- numbers

  function DigitChar(d: nat): (c: char)
    requires d < 10
    ensures IsDigit(c)
  {
    ('0' as int + d) as char
  }

  /** The decimal rendering of a non-negative number, as template literals produce it. */
  function NatToString(n: nat): (r: string)
    ensures r != [] && AllDigits(r)
    ensures r[0] == '0' ==> n == 0
  {
    if n < 10 then [DigitChar(n)] else NatToString(n / 10) + [DigitChar(n % 10)]
  }

  /** The number a string of decimal digits denotes. */
  function DecimalValue(s: string): nat
    requires AllDigits(s)
  {
    if s == [] then 0 else 10 * DecimalValue(s[..|s| - 1]) + (s[|s| - 1] as int - '0' as int)
  }

  /** Reading back the decimal rendering of `n` gives `n`. */
  lemma {:induction false} DecimalRoundTrip(n: nat)
    ensures DecimalValue(NatToString(n)) == n
  {
    var r := NatToString(n);
    if n >= 10 {
      DecimalRoundTrip(n / 10);
      assert r[..|r| - 1] == NatToString(n / 10);
    }
  }
}
