/**
 * Character classes and scanning primitives shared by the sanitisation rules.
 *
 * All six rewrite patterns and the head-tag test are JavaScript regular
 * expressions with the `i` flag and without the `u` flag.  Under that flag a
 * non-ASCII character never canonicalises to an ASCII one, and every literal in
 * the patterns is ASCII, so case-insensitive matching is exactly ASCII case
 * folding.  Strings are sequences of characters; a position is an index into
 * the sequence.
 */
module Scan {

  datatype Option<T> = None | Some(value: T)

  /** The JavaScript `\s` class: WhiteSpace and LineTerminator code points. */
  predicate IsSpace(c: char) {
    || c == '\t' || c == '\n' || c == '\U{000B}' || c == '\U{000C}' || c == '\r'
    || c == ' ' || c == '\U{00A0}' || c == '\U{1680}'
    || ('\U{2000}' <= c <= '\U{200A}')
    || c == '\U{2028}' || c == '\U{2029}' || c == '\U{202F}' || c == '\U{205F}'
    || c == '\U{3000}' || c == '\U{FEFF}'
  }

  /** The characters that `.` refuses to match. */
  predicate IsLineTerminator(c: char) {
    c == '\n' || c == '\r' || c == '\U{2028}' || c == '\U{2029}'
  }

  /** The word characters that decide `\b`. */
  predicate IsWordChar(c: char) {
    ('a' <= c <= 'z') || ('A' <= c <= 'Z') || ('0' <= c <= '9') || c == '_'
  }

  /** The class `[A-Za-z0-9+\/=]` used for base64-like tokens. */
  predicate IsBase64Char(c: char) {
    ('a' <= c <= 'z') || ('A' <= c <= 'Z') || ('0' <= c <= '9') || c == '+' || c == '/' || c == '='
  }

  /** ASCII lower-casing; every other character is its own fold. */
  function Lower(c: char): (r: char)
    ensures 'A' <= c <= 'Z' ==> r as int == c as int + 32
    ensures !('A' <= c <= 'Z') ==> r == c
  {
    if 'A' <= c <= 'Z' then (c as int + 32) as char else c
  }

  /** The literal `lit` occurs at position `i` of `s`, character for character. */
  predicate OccursAt(s: string, i: nat, lit: string) {
    i + |lit| <= |s| && s[i..i + |lit|] == lit
  }

  /**
   * The lower-case literal `lit` occurs at position `i` of `s` when ASCII case
   * is ignored, which is how a pattern with the `i` flag compares literals.
   */
  predicate OccursCiAt(s: string, i: nat, lit: string) {
    i + |lit| <= |s| && AgreesCiFrom(s, i, lit, 0)
  }

  /** From the `k`-th character on, `lit` agrees with `s` at offset `i` up to ASCII case. */
  predicate AgreesCiFrom(s: string, i: nat, lit: string, k: nat)
    decreases |s| - i - k
  {
    k >= |lit| || (i + k < |s| && Lower(s[i + k]) == lit[k] && AgreesCiFrom(s, i, lit, k + 1))
  }

  /** Where a lower-case literal occurs ignoring case, each of its characters is the fold of the text's. */
  lemma OccursCiCharAt(s: string, i: nat, lit: string, k: nat)
    requires OccursCiAt(s, i, lit) && k < |lit|
    ensures Lower(s[i + k]) == lit[k]
  {
    AgreesCiCharAt(s, i, lit, 0, k);
  }

  lemma {:induction false} AgreesCiCharAt(s: string, i: nat, lit: string, m: nat, k: nat)
    requires AgreesCiFrom(s, i, lit, m) && m <= k < |lit|
    decreases k - m
    ensures i + k < |s| && Lower(s[i + k]) == lit[k]
  {
    if m < k {
      AgreesCiCharAt(s, i, lit, m + 1, k);
    }
  }

  /** Two literals that occur at the same place ignoring case agree wherever both have a character. */
  lemma OccurrencesAgree(s: string, i: nat, a: string, b: string, k: nat)
    requires OccursCiAt(s, i, a) && OccursCiAt(s, i, b) && k < |a| && k < |b|
    ensures a[k] == b[k]
  {
    OccursCiCharAt(s, i, a, k);
    OccursCiCharAt(s, i, b, k);
  }

  /** Some literal of `lits` occurs in `s` case-sensitively (`String.includes`, a regex without `i`). */
  predicate ContainsAny(s: string, lits: seq<string>) {
    exists j, k :: 0 <= j < |lits| && 0 <= k <= |s| && OccursAt(s, k, lits[j])
  }

  /** Some lower-case literal of `lits` occurs within `s[lo..hi]` ignoring ASCII case. */
  predicate ContainsAnyCiIn(s: string, lo: nat, hi: nat, lits: seq<string>) {
    exists j, k :: 0 <= j < |lits| && lo <= k && k + |lits[j]| <= hi && OccursCiAt(s, k, lits[j])
  }

  /** The first position in `[lo, hi)` satisfying `P`, if any. */
  function First(lo: nat, hi: nat, P: nat -> bool): (r: Option<nat>)
    decreases hi - lo
    ensures r.Some? ==> lo <= r.value < hi && P(r.value)
    ensures r.Some? ==> forall k :: lo <= k < r.value ==> !P(k)
    ensures r.None? ==> forall k :: lo <= k < hi ==> !P(k)
  {
    if lo >= hi then None
    else if P(lo) then Some(lo)
    else First(lo + 1, hi, P)
  }

  /** The last position in `[lo, hi)` satisfying `P`, if any. */
  function Last(lo: nat, hi: nat, P: nat -> bool): (r: Option<nat>)
    decreases hi - lo
    ensures r.Some? ==> lo <= r.value < hi && P(r.value)
    ensures r.Some? ==> forall k :: r.value < k < hi ==> !P(k)
    ensures r.None? ==> forall k :: lo <= k < hi ==> !P(k)
  {
    if lo >= hi then None
    else if P(hi - 1) then Some(hi - 1)
    else Last(lo, hi - 1, P)
  }

  /** The end of the whitespace run starting at `i` (a greedy `\s*`). */
  function SkipSpaces(s: string, i: nat): (r: nat)
    requires i <= |s|
    decreases |s| - i
    ensures i <= r <= |s|
    ensures forall k {:trigger IsSpace(s[k])} :: i <= k < r ==> IsSpace(s[k])
    ensures r < |s| ==> !IsSpace(s[r])
  {
    if i == |s| || !IsSpace(s[i]) then i else SkipSpaces(s, i + 1)
  }

  /** The end of the run of base64-like characters starting at `i` (a greedy `[A-Za-z0-9+\/=]*`). */
  function Base64RunEnd(s: string, i: nat): (r: nat)
    requires i <= |s|
    decreases |s| - i
    ensures i <= r <= |s|
    ensures forall k {:trigger IsBase64Char(s[k])} :: i <= k < r ==> IsBase64Char(s[k])
    ensures r < |s| ==> !IsBase64Char(s[r])
  {
    if i == |s| || !IsBase64Char(s[i]) then i else Base64RunEnd(s, i + 1)
  }

  /** The first position at or after `i` where the lower-case literal `lit` occurs, ignoring ASCII case. */
  function FindCi(s: string, lit: string, i: nat): (r: Option<nat>)
    requires |lit| > 0
    ensures r.Some? ==> i <= r.value && r.value + |lit| <= |s| && OccursCiAt(s, r.value, lit)
    ensures r.Some? ==> forall k :: i <= k < r.value ==> !OccursCiAt(s, k, lit)
    ensures r.None? ==> forall k :: i <= k ==> !OccursCiAt(s, k, lit)
  {
    var P := (k: nat) => OccursCiAt(s, k, lit);
    assert forall k: nat :: P(k) == OccursCiAt(s, k, lit);
    First(i, |s|, P)
  }

  /** The first `>` at or after `i`: where a greedy `[^>]*` followed by `>` settles. */
  function FindGt(s: string, i: nat): (r: Option<nat>)
    ensures r.Some? ==> i <= r.value < |s| && s[r.value] == '>'
    decreases |s| - i
  {
    if i >= |s| then None else if s[i] == '>' then Some(i) else FindGt(s, i + 1)
  }

  /** No `>` comes before the one `FindGt` finds; with none found, there is none at all. */
  lemma {:induction false} FindGtFree(s: string, i: nat)
    decreases |s| - i
    ensures FindGt(s, i).Some? ==> forall k :: i <= k < FindGt(s, i).value ==> s[k] != '>'
    ensures FindGt(s, i).None? ==> forall k :: i <= k < |s| ==> s[k] != '>'
  {
    if i < |s| && s[i] != '>' {
      FindGtFree(s, i + 1);
    }
  }

  /** A position satisfying `P` with none before it in `[lo, hi)` is what `First` finds. */
  lemma FirstUnique(lo: nat, hi: nat, P: nat -> bool, k: nat)
    requires lo <= k < hi && P(k)
    requires forall j :: lo <= j < k ==> !P(j)
    ensures First(lo, hi, P) == Some(k)
  {
  }

  /** The leftmost case-insensitive occurrence at or after `i` is what `FindCi` finds. */
  lemma FindCiUnique(s: string, lit: string, i: nat, c: nat)
    requires |lit| > 0 && i <= c && OccursCiAt(s, c, lit)
    requires forall k :: i <= k < c ==> !OccursCiAt(s, k, lit)
    ensures FindCi(s, lit, i) == Some(c)
  {
  }

  /** The first `>` at or after `i` is what `FindGt` finds. */
  lemma {:induction false} FindGtUnique(s: string, i: nat, g: nat)
    requires i <= g < |s| && s[g] == '>'
    requires forall k :: i <= k < g ==> s[k] != '>'
    decreases g - i
    ensures FindGt(s, i) == Some(g)
  {
    if i < g {
      FindGtUnique(s, i + 1, g);
    }
  }
}
