/** The string operations of JavaScript that the service relies on:
    `String.prototype.trim`, `toLowerCase` and `replace` with a string
    pattern.  Mongoose's `trim` and `lowercase` schema options call the
    first two. */
module JsString {
  import opened Common

  /** The code points `trim` removes: the WhiteSpace and LineTerminator
      productions of ECMAScript (tab, vertical tab, form feed, space, no-break
      space, byte order mark, every other Zs space separator, line feed,
      carriage return, line and paragraph separators). */
  predicate IsWhitespace(c: char) {
    var n := c as int;
    || n == 0x09 || n == 0x0A || n == 0x0B || n == 0x0C || n == 0x0D
    || n == 0x20 || n == 0xA0 || n == 0x1680
    || (0x2000 <= n <= 0x200A)
    || n == 0x2028 || n == 0x2029 || n == 0x202F || n == 0x205F
    || n == 0x3000 || n == 0xFEFF
  }

  /** Every character of `s` is whitespace (so `s.trim() === ""`). */
  predicate Blank(s: string) {
    forall k :: 0 <= k < |s| ==> IsWhitespace(s[k])
  }

  /** `s` neither starts nor ends with whitespace. */
  predicate Trimmed(s: string) {
    s == [] || (!IsWhitespace(s[0]) && !IsWhitespace(s[|s| - 1]))
  }

  /** The index of the first non-whitespace character of `s` at or after
      `i`, or `|s|` when there is none. */
  function SkipLeading(s: string, i: nat): (k: nat)
    requires i <= |s|
    ensures i <= k <= |s|
    ensures forall m :: i <= m < k ==> IsWhitespace(s[m])
    ensures k == |s| || !IsWhitespace(s[k])
    decreases |s| - i
  {
    if i < |s| && IsWhitespace(s[i]) then SkipLeading(s, i + 1) else i
  }

  /** The index just past the last non-whitespace character of `s[lo..j]`,
      or `lo` when there is none. */
  function SkipTrailing(s: string, lo: nat, j: nat): (k: nat)
    requires lo <= j <= |s|
    ensures lo <= k <= j
    ensures forall m :: k <= m < j ==> IsWhitespace(s[m])
    ensures k == lo || !IsWhitespace(s[k - 1])
    decreases j
  {
    if j > lo && IsWhitespace(s[j - 1]) then SkipTrailing(s, lo, j - 1) else j
  }

  /** `s.trim()`: leading whitespace removed, then trailing whitespace. */
  function Trim(s: string): (r: string)
    ensures |r| <= |s|
    ensures Trimmed(r)
  {
    var a := SkipLeading(s, 0);
    var b := SkipTrailing(s, a, |s|);
    s[a..b]
  }

  /** `s.trim()` is `s` with a blank prefix and a blank suffix cut off. */
  lemma TrimDecompose(s: string) returns (lead: string, trail: string)
    ensures s == lead + (Trim(s) + trail)
    ensures Blank(lead) && Blank(trail)
  {
    var a := SkipLeading(s, 0);
    var b := SkipTrailing(s, a, |s|);
    lead := s[..a];
    trail := s[b..];
    assert s == s[..a] + (s[a..b] + s[b..]);
  }

  /** The trimmed string is empty exactly when `s` is blank. */
  lemma TrimEmpty(s: string)
    ensures Trim(s) == [] <==> Blank(s)
  {
    var a := SkipLeading(s, 0);
    var b := SkipTrailing(s, a, |s|);
    if a < |s| {
      assert !IsWhitespace(s[a]);
      assert a < b;
    }
  }

  /** Trimming leaves a string alone exactly when it is already trimmed. */
  lemma TrimFixpoint(s: string)
    ensures Trim(s) == s <==> Trimmed(s)
  {
    if Trimmed(s) && s != [] {
      assert SkipLeading(s, 0) == 0;
      assert SkipTrailing(s, 0, |s|) == |s|;
    }
  }

  /** Trimming twice is trimming once. */
  lemma TrimIdempotent(s: string)
    ensures Trim(Trim(s)) == Trim(s)
  {
    TrimFixpoint(Trim(s));
  }

  predicate IsUpper(c: char) {
    'A' <= c <= 'Z'
  }

  /** The lower-case letters in alphabetical order. */
  const LowerAlphabet := "abcdefghijklmnopqrstuvwxyz"

  /** `toLowerCase` on one character (ASCII letters only): an upper-case
      letter becomes the lower-case letter at the same place in the
      alphabet, any other character is unchanged, whitespace is kept. */
  function LowerChar(c: char): (r: char)
    ensures !IsUpper(r)
    ensures IsUpper(c) ==> r == LowerAlphabet[c as int - 'A' as int]
    ensures !IsUpper(c) ==> r == c
    ensures IsWhitespace(r) <==> IsWhitespace(c)
  {
    if IsUpper(c) then (c as int + 32) as char else c
  }

  /** No upper-case letter occurs in `s`. */
  predicate Lowered(s: string) {
    forall k :: 0 <= k < |s| ==> !IsUpper(s[k])
  }

  /** `s.toLowerCase()`: same length, every upper-case letter replaced by
      its lower-case counterpart, and every other character where it was. */
  function Lower(s: string): (r: string)
    ensures |r| == |s|
    ensures Lowered(r)
    ensures forall k :: 0 <= k < |s| && IsUpper(s[k]) ==> r[k] == LowerAlphabet[s[k] as int - 'A' as int]
    ensures forall k :: 0 <= k < |s| && !IsUpper(s[k]) ==> r[k] == s[k]
  {
    seq(|s|, k requires 0 <= k < |s| => LowerChar(s[k]))
  }

  /** Lowering leaves a string alone exactly when it has no upper-case
      letter; in particular lowering twice is lowering once. */
  lemma LowerFixpoint(s: string)
    ensures Lower(s) == s <==> Lowered(s)
    ensures Lower(Lower(s)) == Lower(s)
  {
  }

  /** Trimming keeps a string free of upper-case letters. */
  lemma TrimKeepsLowered(s: string)
    requires Lowered(s)
    ensures Lowered(Trim(s))
  {
  }

  /** Lower-casing and trimming commute, so the order in which the schema
      applies its `lowercase` and `trim` options does not matter. */
  lemma LowerTrimCommute(s: string)
    ensures Trim(Lower(s)) == Lower(Trim(s))
  {
    var l := Lower(s);
    assert forall k :: 0 <= k < |s| ==> (IsWhitespace(l[k]) <==> IsWhitespace(s[k]));
    SkipLeadingLower(s, 0);
    var a := SkipLeading(s, 0);
    SkipTrailingLower(s, a, |s|);
  }

  lemma {:induction false} SkipLeadingLower(s: string, i: nat)
    requires i <= |s|
    ensures SkipLeading(Lower(s), i) == SkipLeading(s, i)
    decreases |s| - i
  {
    if i < |s| && IsWhitespace(s[i]) {
      SkipLeadingLower(s, i + 1);
    }
  }

  lemma {:induction false} SkipTrailingLower(s: string, lo: nat, j: nat)
    requires lo <= j <= |s|
    ensures SkipTrailing(Lower(s), lo, j) == SkipTrailing(s, lo, j)
    decreases j
  {
    if j > lo && IsWhitespace(s[j - 1]) {
      SkipTrailingLower(s, lo, j - 1);
    }
  }

  /** The value a field with both `lowercase` and `trim` options stores. */
  function Normalize(s: string): string {
    Trim(Lower(s))
  }

  /** A value a field with both options stores: lower-case and trimmed. */
  predicate Normalized(s: string) {
    Lowered(s) && Trimmed(s)
  }

  /** Normalising gives a normalised value, and leaves a value alone exactly
      when it is normalised; a prior `toLowerCase` makes no difference. */
  lemma NormalizeFixpoint(s: string)
    ensures Normalized(Normalize(s))
    ensures Normalize(s) == s <==> Normalized(s)
    ensures Normalize(Lower(s)) == Normalize(s)
  {
    TrimKeepsLowered(Lower(s));
    LowerFixpoint(s);
    if Normalized(s) {
      TrimFixpoint(s);
    }
  }

  /** Normalising twice is normalising once. */
  lemma NormalizeIdempotent(s: string)
    ensures Normalize(Normalize(s)) == Normalize(s)
  {
    NormalizeFixpoint(s);
    NormalizeFixpoint(Normalize(s));
  }

  /** `pat` occurs in `s` at index `i`. */
  predicate OccursAt(s: string, pat: string, i: nat) {
    i + |pat| <= |s| && s[i..i + |pat|] == pat
  }

  /** The first index at or after `from` where `pat` occurs in `s`. */
  function IndexFrom(s: string, pat: string, from: nat): (r: Option<nat>)
    ensures r.Some? ==> from <= r.value && OccursAt(s, pat, r.value)
    ensures r.Some? ==> forall j: nat :: from <= j < r.value ==> !OccursAt(s, pat, j)
    ensures r.None? ==> forall j: nat :: from <= j ==> !OccursAt(s, pat, j)
    decreases |s| - from
  {
    if from + |pat| > |s| then None
    else if s[from..from + |pat|] == pat then Some(from)
    else IndexFrom(s, pat, from + 1)
  }

  /** `s.indexOf(pat)`, None standing for -1. */
  function IndexOf(s: string, pat: string): Option<nat> {
    IndexFrom(s, pat, 0)
  }

  /** `s.replace(pat, "")` for a string pattern: the first occurrence of
      `pat`, wherever it is, is removed; without one `s` is returned.
      Putting `pat` back at the first occurrence restores `s`. */
  function RemoveFirst(s: string, pat: string): (r: string)
    ensures IndexOf(s, pat).None? ==> r == s
    ensures IndexOf(s, pat).Some? ==>
      var i := IndexOf(s, pat).value;
      i <= |r| && s == r[..i] + pat + r[i..]
  {
    match IndexOf(s, pat)
    case None => s
    case Some(i) =>
      var r := s[..i] + s[i + |pat|..];
      assert r[..i] == s[..i] && r[i..] == s[i + |pat|..];
      assert s == s[..i] + s[i..i + |pat|] + s[i + |pat|..];
      r
  }

  /** A header that starts with the pattern loses exactly that prefix. */
  lemma RemoveFirstPrefix(pat: string, rest: string)
    ensures RemoveFirst(pat + rest, pat) == rest
  {
    var s := pat + rest;
    assert OccursAt(s, pat, 0) by { assert s[0..|pat|] == pat; }
    assert IndexOf(s, pat) == Some(0);
  }
}
