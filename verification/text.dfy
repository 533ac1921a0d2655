/** Character classes and the few `str` operations the rewriter relies on:
    `strip()`, `startswith`/`endswith` of one character, and `find`. */
module Text {

  datatype Option<T> = None | Some(value: T)

  /** Python's `str.isspace` for a single character; the `\s` class of a
      `str` regular expression matches exactly these characters. */
  predicate IsSpace(c: char) {
    || c == ' '
    || ('\t' <= c <= '\r')
    || ('\U{1C}' <= c <= '\U{1F}')
    || c == '\U{85}' || c == '\U{A0}' || c == '\U{1680}'
    || ('\U{2000}' <= c <= '\U{200A}')
    || c == '\U{2028}' || c == '\U{2029}' || c == '\U{202F}'
    || c == '\U{205F}' || c == '\U{3000}'
  }

  /** The `\w` class, restricted to ASCII letters, digits and underscore. */
  predicate IsWordChar(c: char) {
    ('a' <= c <= 'z') || ('A' <= c <= 'Z') || ('0' <= c <= '9') || c == '_'
  }

  predicate AllSpace(s: string) {
    forall k :: 0 <= k < |s| ==> IsSpace(s[k])
  }

  predicate IsWord(s: string) {
    |s| > 0 && forall k :: 0 <= k < |s| ==> IsWordChar(s[k])
  }

  /** Neither end of `s` is whitespace: what `strip()` leaves behind. */
  predicate IsStripped(s: string) {
    s == [] || (!IsSpace(s[0]) && !IsSpace(s[|s| - 1]))
  }

  predicate StartsWith(s: string, c: char) {
    |s| > 0 && s[0] == c
  }

  predicate EndsWith(s: string, c: char) {
    |s| > 0 && s[|s| - 1] == c
  }

  /** Number of whitespace characters at the front of `s`. */
  function LeadingSpace(s: string): (n: nat)
    ensures n <= |s|
    ensures forall k :: 0 <= k < n ==> IsSpace(s[k])
    ensures n < |s| ==> !IsSpace(s[n])
  {
    if |s| > 0 && IsSpace(s[0]) then
      var n := 1 + LeadingSpace(s[1..]);
      assert forall k :: 1 <= k < |s| ==> s[k] == s[1..][k - 1];
      n
    else 0
  }

  /** Number of whitespace characters at the end of `s`. */
  function TrailingSpace(s: string): (n: nat)
    ensures n <= |s|
    ensures forall k :: |s| - n <= k < |s| ==> IsSpace(s[k])
    ensures n < |s| ==> !IsSpace(s[|s| - n - 1])
  {
    if |s| > 0 && IsSpace(s[|s| - 1]) then
      var init := s[..|s| - 1];
      1 + TrailingSpace(init)
    else 0
  }

  /** `s.strip()`: the result has no whitespace at either end, is the part of
      `s` that starts where the leading whitespace ends and is followed only by
      whitespace, and is empty exactly for blank input. */
  function Strip(s: string): (r: string)
    ensures IsStripped(r)
    ensures LeadingSpace(s) + |r| <= |s|
    ensures r == s[LeadingSpace(s)..LeadingSpace(s) + |r|]
    ensures forall k :: LeadingSpace(s) + |r| <= k < |s| ==> IsSpace(s[k])
    ensures r == [] <==> AllSpace(s)
  {
    var lo := LeadingSpace(s);
    if lo == |s| then
      []
    else
      s[lo..|s| - TrailingSpace(s)]
  }

  /** `s` is the whitespace run `strip()` removes at the front, then its
      result, then the whitespace run it removes at the back. */
  lemma StripParts(s: string)
    ensures s == s[..LeadingSpace(s)] + Strip(s) + s[LeadingSpace(s) + |Strip(s)|..]
    ensures forall k :: 0 <= k < |s| && !(LeadingSpace(s) <= k < LeadingSpace(s) + |Strip(s)|) ==> IsSpace(s[k])
    ensures s[LeadingSpace(s)..LeadingSpace(s) + |Strip(s)|] == Strip(s)
  {
    if LeadingSpace(s) == |s| {
      StripBlankParts(s);
    } else {
      StripSomeParts(s);
    }
  }

  lemma StripBlankParts(s: string)
    requires LeadingSpace(s) == |s|
    ensures s == s[..LeadingSpace(s)] + Strip(s) + s[LeadingSpace(s) + |Strip(s)|..]
    ensures forall k :: 0 <= k < |s| && !(LeadingSpace(s) <= k < LeadingSpace(s) + |Strip(s)|) ==> IsSpace(s[k])
    ensures s[LeadingSpace(s)..LeadingSpace(s) + |Strip(s)|] == Strip(s)
  {
    assert Strip(s) == [];
    assert s[..|s|] == s;
  }

  lemma StripSomeParts(s: string)
    requires LeadingSpace(s) < |s|
    ensures s == s[..LeadingSpace(s)] + Strip(s) + s[LeadingSpace(s) + |Strip(s)|..]
    ensures forall k :: 0 <= k < |s| && !(LeadingSpace(s) <= k < LeadingSpace(s) + |Strip(s)|) ==> IsSpace(s[k])
    ensures s[LeadingSpace(s)..LeadingSpace(s) + |Strip(s)|] == Strip(s)
  {
    var lo, r := LeadingSpace(s), Strip(s);
    SplitThree(s, lo, lo + |r|);
  }

  /** A text is its three slices at two cut points, joined. */
  lemma SplitThree(s: string, lo: nat, hi: nat)
    requires lo <= hi <= |s|
    ensures s == s[..lo] + s[lo..hi] + s[hi..]
  {
  }

  /** Stripping text that is already stripped changes nothing. */
  lemma StripStripped(s: string)
    requires IsStripped(s)
    ensures Strip(s) == s
  {
    if s != [] {
      assert LeadingSpace(s) == 0;
      assert TrailingSpace(s) == 0;
    }
  }

  /** Stripping is idempotent. */
  lemma StripIdempotent(s: string)
    ensures Strip(Strip(s)) == Strip(s)
  {
    StripStripped(Strip(s));
  }

  /** Whitespace in front of a stripped, non-empty string is removed by
      `strip()`. */
  lemma StripAfterSpace(w: string, x: string)
    requires AllSpace(w)
    requires x != [] && IsStripped(x)
    ensures Strip(w + x) == x
  {
    var s := w + x;
    assert forall k :: 0 <= k < |w| ==> IsSpace(s[k]);
    assert s[|w|] == x[0];
    assert s[|s| - 1] == x[|x| - 1];
    assert s[|w|..] == x;
  }

  lemma Assoc(a: string, b: string, c: string)
    ensures a + (b + c) == a + b + c
  {
  }

  lemma Middle(x: string, r: string, y: string)
    ensures (x + r + y)[|x|..|x| + |r|] == r
  {
  }

  /** `s[i:]` starts with `pat`. */
  predicate OccursAt(s: string, pat: string, i: int) {
    0 <= i && i + |pat| <= |s| && s[i..i + |pat|] == pat
  }

  /** `s.find(pat, from)`: the least index at or after `from` where `pat`
      occurs, or -1 when there is none. */
  function Find(s: string, pat: string, from: nat): (r: int)
    ensures r == -1 || (from <= r && OccursAt(s, pat, r))
    ensures forall k :: from <= k && (r == -1 || k < r) ==> !OccursAt(s, pat, k)
    decreases |s| - from
  {
    if from + |pat| > |s| then -1
    else if s[from..from + |pat|] == pat then from
    else Find(s, pat, from + 1)
  }

  /** The first occurrence at or after `from` is the one `find` returns. */
  lemma FindAt(s: string, pat: string, from: nat, at: nat)
    requires from <= at && OccursAt(s, pat, at)
    requires forall k :: from <= k < at ==> !OccursAt(s, pat, k)
    ensures Find(s, pat, from) == at
  {
  }

  /** Searching a suffix finds the same occurrence, shifted. */
  lemma {:induction false} FindShift(s: string, pat: string, i: nat, from: nat)
    requires i <= from && i <= |s|
    ensures Find(s[i..], pat, from - i) == if Find(s, pat, from) == -1 then -1 else Find(s, pat, from) - i
    decreases |s| - from
  {
    if from + |pat| <= |s| {
      assert s[i..][from - i..from - i + |pat|] == s[from..from + |pat|];
      if s[from..from + |pat|] != pat {
        FindShift(s, pat, i, from + 1);
      }
    }
  }
}
