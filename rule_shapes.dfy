/**
 * What each sanitisation pattern matches, stated the way the regular
 * expression reads, and the proof that each scanner of `Rules` finds exactly
 * that match (for rule 3, that every match it finds has the shape).  Each
 * piece of a pattern is characterised first; the shape of a whole pattern
 * is built from the shapes of its pieces.
 *
 * A shape names the positions where the pieces of a pattern begin and end
 * and says what lies between them; where a quantifier is lazy the shape says
 * that no earlier stopping point works, and where a greedy run meets a
 * character it cannot contain the shape says the run is maximal.
 */
module RuleShapes {
  import opened Scan
  import opened Rules

  /** `s[i..j]` is a maximal run of whitespace: a greedy `\s*` from `i` stops at `j`. */
  predicate SpacesTo(s: string, i: nat, j: nat) {
    i <= j <= |s| && (forall k {:trigger IsSpace(s[k])} :: i <= k < j ==> IsSpace(s[k])) && (j < |s| ==> !IsSpace(s[j]))
  }

  lemma SkipSpacesUnique(s: string, i: nat, j: nat)
    requires i <= |s| && SpacesTo(s, i, j)
    ensures SkipSpaces(s, i) == j
  {
  }

  /** `s[i..j]` is whitespace followed by the non-space character `c`. */
  predicate SpacesThen(s: string, i: nat, j: nat, c: char)
    requires !IsSpace(c)
  {
    i <= j < |s| && (forall k {:trigger IsSpace(s[k])} :: i <= k < j ==> IsSpace(s[k])) && s[j] == c
  }

  lemma SpacesThenUnique(s: string, i: nat, j: nat, c: char)
    requires i <= |s| && !IsSpace(c) && SpacesThen(s, i, j, c)
    ensures SkipSpaces(s, i) == j
  {
  }

  /** `\s*` then `c` matches `s[i..j + 1]`, and nothing else from `i`. */
  lemma SpacedCharMatches(s: string, i: nat, j: nat, c: char)
    requires i <= |s| && !IsSpace(c)
    ensures SpacedChar(s, i, c) == Some(j + 1) <==> SpacesThen(s, i, j, c)
  {
    if SpacesThen(s, i, j, c) {
      SpacesThenUnique(s, i, j, c);
    }
  }

  // ---------------------------------------------------------------------------
  // Rule 1: each piece, from where the previous one ended, matches exactly
  // when its shape holds, and the shape fixes where the piece ends.
  // ---------------------------------------------------------------------------

  /** No two event names occur at the same place, so the alternation has at most one way to match. */
  lemma EventNamesExclusive(s: string, i: nat, j: nat, j': nat)
    requires j < |EventNames| && j' < |EventNames|
    requires OccursCiAt(s, i, EventNames[j]) && OccursCiAt(s, i, EventNames[j'])
    ensures j == j'
  {
    var a, b := EventNames[j], EventNames[j'];
    OccurrencesAgree(s, i, a, b, 0);
    if a[0] == 'm' {
      OccurrencesAgree(s, i, a, b, 5);
      OccurrencesAgree(s, i, a, b, 7);
    }
  }

  /** `\s(on(?:click|...|error))` matches `s[p..n]`: a space, `on` and one event name. */
  lemma EventNameMatches(s: string, p: nat, n: nat)
    requires p < |s|
    ensures EventNameAt(s, p) == Some(n) <==>
            IsSpace(s[p]) && OccursCiAt(s, p + 1, "on") &&
            exists j :: 0 <= j < |EventNames| && OccursCiAt(s, p + 3, EventNames[j]) && n == p + 3 + |EventNames[j]|
  {
    forall j | 0 <= j < |EventNames| && OccursCiAt(s, p + 3, EventNames[j]) && IsSpace(s[p]) && OccursCiAt(s, p + 1, "on")
      ensures EventNameAt(s, p) == Some(p + 3 + |EventNames[j]|)
    {
      var f := FirstAlternative(s, p + 3, EventNames).value;
      EventNamesExclusive(s, p + 3, f, j);
    }
  }

  /** `\s*(['"])` matches `s[i..q + 1]`: whitespace, then a quote at `q`. */
  lemma OpenQuoteMatches(s: string, i: nat, q: nat)
    requires i <= |s|
    ensures OpenQuote(s, i) == Some(q) <==> SpacesTo(s, i, q) && q < |s| && IsQuote(s[q])
  {
    if SpacesTo(s, i, q) {
      SkipSpacesUnique(s, i, q);
    }
  }

  /** `.*?` then the quote `q` matches `s[i..c + 1]`: no line terminator and no `q` before `c`. */
  lemma {:induction false} ValueCloseMatches(s: string, i: nat, q: char, c: nat)
    requires IsQuote(q)
    decreases |s| - i
    ensures ValueClose(s, i, q) == Some(c) <==>
            i <= c < |s| && s[c] == q && forall k :: i <= k < c ==> s[k] != q && !IsLineTerminator(s[k])
  {
    if i < c && i < |s| && s[i] != q && !IsLineTerminator(s[i]) {
      ValueCloseMatches(s, i + 1, q, c);
    }
  }

  /**
   * Rule 1 matches `s[p..c + 1]`: a space at `p`, `on` and an event name
   * ending at `n`, whitespace and `=` at `j`, whitespace and an opening quote
   * at `q`, then a value on one line up to the first equal quote, at `c`.
   */
  ghost predicate EventHandlerShape(s: string, p: nat, n: nat, j: nat, q: nat, c: nat)
    requires p < |s|
  {
    && IsSpace(s[p]) && OccursCiAt(s, p + 1, "on")
    && (exists k :: 0 <= k < |EventNames| && OccursCiAt(s, p + 3, EventNames[k]) && n == p + 3 + |EventNames[k]|)
    && SpacesThen(s, n, j, '=')
    && SpacesTo(s, j + 1, q) && q < |s| && IsQuote(s[q])
    && q < c < |s| && s[c] == s[q]
    && forall k :: q < k < c ==> s[k] != s[q] && !IsLineTerminator(s[k])
  }

  /** Every rule-1 match has the shape. */
  lemma EventHandlerMatchHasShape(s: string, p: nat)
    requires p < |s| && EventHandlerAt(s, p).Some?
    ensures exists n, j, q, c :: EventHandlerShape(s, p, n, j, q, c) && EventHandlerAt(s, p) == Some(c + 1)
  {
    var n := EventNameAt(s, p).value;
    EventNameMatches(s, p, n);
    var j := SpacedChar(s, n, '=').value - 1;
    SpacedCharMatches(s, n, j, '=');
    var q := OpenQuote(s, j + 1).value;
    OpenQuoteMatches(s, j + 1, q);
    var c := ValueClose(s, q + 1, s[q]).value;
    ValueCloseMatches(s, q + 1, s[q], c);
    assert EventHandlerShape(s, p, n, j, q, c);
  }

  /** Whatever has the shape is the rule-1 match. */
  lemma ShapeIsEventHandlerMatch(s: string, p: nat, n: nat, j: nat, q: nat, c: nat)
    requires p < |s| && EventHandlerShape(s, p, n, j, q, c)
    ensures EventHandlerAt(s, p) == Some(c + 1)
  {
    EventNameMatches(s, p, n);
    SpacedCharMatches(s, n, j, '=');
    OpenQuoteMatches(s, j + 1, q);
    ValueCloseMatches(s, q + 1, s[q], c);
  }

  // ---------------------------------------------------------------------------
  // Rule 2
  // ---------------------------------------------------------------------------

  /**
   * Rule 2 matches `s[p..e]` with its opening tag closed by the `>` at `g`:
   * `<iframe`, then attributes free of `>` that contain a keyword anywhere
   * (inside a word too), the `>`, and the body up to the first `</iframe>`.
   */
  ghost predicate IframeShape(s: string, p: nat, g: nat, e: nat) {
    && OccursCiAt(s, p, "<iframe")
    && p + 7 <= g < |s| && s[g] == '>' && (forall k :: p + 7 <= k < g ==> s[k] != '>')
    && ContainsAnyCiIn(s, p + 7, g, IframeKeywords)
    && g + 10 <= e <= |s| && OccursCiAt(s, e - 9, "</iframe>")
    && forall k :: g + 1 <= k < e - 9 ==> !OccursCiAt(s, k, "</iframe>")
  }

  /** Every rule-2 match has the shape. */
  lemma AdIframeMatchHasShape(s: string, p: nat)
    requires p < |s| && AdIframeAt(s, p).Some?
    ensures IframeShape(s, p, FindGt(s, p + 7).value, AdIframeAt(s, p).value)
  {
    FindGtFree(s, p + 7);
  }

  /** Whatever has the shape is the rule-2 match. */
  lemma ShapeIsAdIframeMatch(s: string, p: nat, g: nat, e: nat)
    requires p < |s| && IframeShape(s, p, g, e)
    ensures AdIframeAt(s, p) == Some(e)
  {
    FindGtUnique(s, p + 7, g);
    FindCiUnique(s, "</iframe>", g + 1, e - 9);
  }

  // ---------------------------------------------------------------------------
  // Rule 3
  // ---------------------------------------------------------------------------

  /**
   * From just after the opening quote at `v`, rule 3 matches `s[v + 1..e]`:
   * a value up to the next quote of either kind at `w` containing a keyword
   * anywhere, the rest of the tag up to the first `>` at `g`, and the body up
   * to the first `</div>`.
   */
  ghost predicate DivValueShape(s: string, v: nat, w: nat, g: nat, e: nat) {
    && v < w < |s| && IsQuote(s[w]) && (forall k :: v + 1 <= k < w ==> !IsQuote(s[k]))
    && ContainsAnyCiIn(s, v + 1, w, DivKeywords)
    && w < g < |s| && s[g] == '>' && (forall k :: w + 1 <= k < g ==> s[k] != '>')
    && g + 7 <= e <= |s| && OccursCiAt(s, e - 6, "</div>")
    && forall k :: g + 1 <= k < e - 6 ==> !OccursCiAt(s, k, "</div>")
  }

  /** The first quote at or after `i` is what `FindQuote` finds. */
  lemma {:induction false} FindQuoteUnique(s: string, i: nat, w: nat)
    requires i <= w < |s| && IsQuote(s[w])
    requires forall k :: i <= k < w ==> !IsQuote(s[k])
    decreases w - i
    ensures FindQuote(s, i) == Some(w)
  {
    if i < w {
      FindQuoteUnique(s, i + 1, w);
    }
  }

  /** `(class|id)=['"]` matches at `t` with its quote at `v`. */
  lemma AttrOpenQuoteMatches(s: string, t: nat, v: nat)
    requires t <= |s|
    ensures AttrOpenQuote(s, t) == Some(v) <==>
            ((OccursCiAt(s, t, "class=") && v == t + 6) || (OccursCiAt(s, t, "id=") && v == t + 3)) &&
            v < |s| && IsQuote(s[v])
  {
  }

  /** Every match from an attribute name has its opening quote where `AttrOpenQuote` puts it, and the value shape from there. */
  lemma AdDivAttrMatchHasShape(s: string, t: nat)
    requires t <= |s| && AdDivAttrAt(s, t).Some?
    ensures var v := AttrOpenQuote(s, t).value;
            exists w, g :: DivValueShape(s, v, w, g, AdDivAttrAt(s, t).value)
  {
    var v := AttrOpenQuote(s, t).value;
    var w := FindQuote(s, v + 1).value;
    var g := FindGt(s, w + 1).value;
    FindQuoteFree(s, v + 1);
    FindGtFree(s, w + 1);
    assert DivValueShape(s, v, w, g, AdDivAttrAt(s, t).value);
  }

  /** Whatever has the value shape is the match from just after the opening quote. */
  lemma ShapeIsAdDivValueMatch(s: string, v: nat, w: nat, g: nat, e: nat)
    requires DivValueShape(s, v, w, g, e)
    ensures AdDivValueAt(s, v + 1) == Some(e)
  {
    FindQuoteUnique(s, v + 1, w);
    FindGtUnique(s, w + 1, g);
    FindCiUnique(s, "</div>", g + 1, e - 6);
  }

  /** Whatever has the value shape after the opening quote that `AttrOpenQuote` finds is the match from the attribute name. */
  lemma ShapeIsAdDivAttrMatch(s: string, t: nat, v: nat, w: nat, g: nat, e: nat)
    requires t <= |s| && AttrOpenQuote(s, t) == Some(v) && DivValueShape(s, v, w, g, e)
    ensures AdDivAttrAt(s, t) == Some(e)
  {
    ShapeIsAdDivValueMatch(s, v, w, g, e);
  }

  /**
   * Rule 3 matches `s[p..e]` with its attribute name at `t`: `<div` at `p`,
   * no `>` in `s[p + 4..t]`, the rest of the pattern matches from `t` up to
   * `e`, and from no later position that the leading greedy `[^>]*` reaches.
   */
  ghost predicate DivShape(s: string, p: nat, t: nat, e: nat)
    requires p + 4 <= |s|
  {
    && OccursCiAt(s, p, "<div")
    && p + 4 <= t <= |s| && (forall k :: p + 4 <= k < t ==> s[k] != '>')
    && AdDivAttrAt(s, t) == Some(e)
    && forall t' :: t < t' <= TagLimit(s, p + 4) ==> !AttrMatches(s)(t')
  }

  /** Every rule-3 match has the shape, with its attribute name at the last position that works. */
  lemma AdDivMatchHasShape(s: string, p: nat)
    requires p < |s| && AdDivAt(s, p).Some?
    ensures p + 4 <= |s| && exists t :: DivShape(s, p, t, AdDivAt(s, p).value)
  {
    var t := Last(p + 4, TagLimit(s, p + 4) + 1, AttrMatches(s)).value;
    TagLimitFree(s, p + 4);
    assert DivShape(s, p, t, AdDivAt(s, p).value);
  }

  // ---------------------------------------------------------------------------
  // Rule 4
  // ---------------------------------------------------------------------------

  /** No two script keywords occur at the same place, so the alternation has at most one way to match. */
  lemma ScriptKeywordsExclusive(s: string, i: nat, j: nat, j': nat)
    requires j < |ScriptKeywords| && j' < |ScriptKeywords|
    requires OccursCiAt(s, i, ScriptKeywords[j]) && OccursCiAt(s, i, ScriptKeywords[j'])
    ensures j == j'
  {
    var a, b := ScriptKeywords[j], ScriptKeywords[j'];
    OccurrencesAgree(s, i, a, b, 0);
    if a[0] == 'p' {
      OccurrencesAgree(s, i, a, b, 3);
      OccurrencesAgree(s, i, a, b, 4);
    } else if a[0] == 'a' {
      OccurrencesAgree(s, i, a, b, 1);
    }
  }

  /** Keyword `j` at `k`, then the lazy gap up to the first `</script>` after it, at `c`. */
  ghost predicate KeywordCloseShape(s: string, k: nat, j: nat, c: nat) {
    && j < |ScriptKeywords| && OccursCiAt(s, k, ScriptKeywords[j])
    && k + |ScriptKeywords[j]| <= c && OccursCiAt(s, c, "</script>")
    && forall x :: k + |ScriptKeywords[j]| <= x < c ==> !OccursCiAt(s, x, "</script>")
  }

  /** `(?:popunder|...)[\s\S]*?<\/script>` matches `s[k..c + 9]` exactly when some keyword has that shape. */
  lemma KeywordThenCloseMatches(s: string, k: nat, c: nat)
    ensures KeywordThenClose(s, k) == Some(c + 9) <==> exists j :: KeywordCloseShape(s, k, j, c)
  {
    if KeywordThenClose(s, k) == Some(c + 9) {
      var j := FirstAlternative(s, k, ScriptKeywords).value;
      assert KeywordCloseShape(s, k, j, c);
    }
    forall j: nat | KeywordCloseShape(s, k, j, c)
      ensures KeywordThenClose(s, k) == Some(c + 9)
    {
      var f := FirstAlternative(s, k, ScriptKeywords).value;
      ScriptKeywordsExclusive(s, k, f, j);
      FindCiUnique(s, "</script>", k + |ScriptKeywords[j]|, c);
    }
  }

  /**
   * Rule 4 matches `s[p..e]` with its opening tag closed at `g` and its
   * keyword at `k`: `<script`, the first `>`, and the keyword part from the
   * first position after the tag from which it matches.
   */
  ghost predicate KeywordScriptShape(s: string, p: nat, g: nat, k: nat, e: nat) {
    && OccursCiAt(s, p, "<script")
    && p + 7 <= g < |s| && s[g] == '>' && (forall x :: p + 7 <= x < g ==> s[x] != '>')
    && g < k && KeywordThenClose(s, k) == Some(e)
    && forall x :: g < x < k ==> !KeywordMatches(s)(x)
  }

  /** Every rule-4 match has the shape. */
  lemma KeywordScriptMatchHasShape(s: string, p: nat)
    requires p < |s| && KeywordScriptAt(s, p).Some?
    ensures exists g, k :: KeywordScriptShape(s, p, g, k, KeywordScriptAt(s, p).value)
  {
    var g := FindGt(s, p + 7).value;
    FindGtFree(s, p + 7);
    var k := First(g + 1, |s|, KeywordMatches(s)).value;
    KeywordScriptFrom(s, p, g, k);
    assert KeywordScriptShape(s, p, g, k, KeywordScriptAt(s, p).value);
  }

  /** Whatever has the shape is the rule-4 match. */
  lemma ShapeIsKeywordScriptMatch(s: string, p: nat, g: nat, k: nat, e: nat)
    requires p < |s| && KeywordScriptShape(s, p, g, k, e)
    ensures KeywordScriptAt(s, p) == Some(e)
  {
    KeywordShapeIsFirst(s, p, g, k, e);
    KeywordScriptFrom(s, p, g, k);
  }

  /** The tag end of the shape is the first `>`, and its keyword position the first one that works. */
  lemma KeywordShapeIsFirst(s: string, p: nat, g: nat, k: nat, e: nat)
    requires KeywordScriptShape(s, p, g, k, e)
    ensures FindGt(s, p + 7) == Some(g) && First(g + 1, |s|, KeywordMatches(s)) == Some(k)
  {
    FindGtUnique(s, p + 7, g);
    FirstUnique(g + 1, |s|, KeywordMatches(s), k);
  }

  /** Once the tag end and the keyword position are known, rule 4 at `p` is the keyword part from there. */
  lemma KeywordScriptFrom(s: string, p: nat, g: nat, k: nat)
    requires p < |s| && OccursCiAt(s, p, "<script")
    requires FindGt(s, p + 7) == Some(g) && First(g + 1, |s|, KeywordMatches(s)) == Some(k)
    ensures KeywordScriptAt(s, p) == KeywordThenClose(s, k)
  {
    KeywordAfterTag(s, g, k);
  }

  /** Once the keyword position is known, the rest of rule 4 is the keyword part from there. */
  lemma KeywordAfterTag(s: string, g: nat, k: nat)
    requires First(g + 1, |s|, KeywordMatches(s)) == Some(k)
    ensures KeywordsAfterTag(s, g) == KeywordThenClose(s, k)
  {
  }

  // ---------------------------------------------------------------------------
  // Rule 5
  // ---------------------------------------------------------------------------

  /** A maximal run of base64-like characters `s[k..e]` of 80 or more, then the first `</script>` from `e`, at `c`. */
  ghost predicate TokenCloseShape(s: string, k: nat, e: nat, c: nat) {
    && k + 80 <= e <= c && OccursCiAt(s, c, "</script>")
    && (forall x {:trigger IsBase64Char(s[x])} :: k <= x < e ==> IsBase64Char(s[x]))
    && (e < |s| ==> !IsBase64Char(s[e]))
    && forall x :: e <= x < c ==> !OccursCiAt(s, x, "</script>")
  }

  /** `([A-Za-z0-9+\/=]{80,})[\s\S]*?<\/script>` matches `s[k..c + 9]` capturing `s[k..e]` exactly when that is the shape. */
  lemma TokenThenCloseMatches(s: string, k: nat, e: nat, c: nat)
    requires k <= e <= |s|
    ensures TokenThenClose(s, k) == Some(Hit(c + 9, s[k..e])) <==> TokenCloseShape(s, k, e, c)
  {
    if TokenCloseShape(s, k, e, c) {
      assert Base64RunEnd(s, k) == e;
      FindCiUnique(s, "</script>", e, c);
    }
    if TokenThenClose(s, k) == Some(Hit(c + 9, s[k..e])) {
      var e' := Base64RunEnd(s, k);
      assert |s[k..e']| == e' - k;
    }
  }

  /**
   * Rule 5 matches `s[p..h.end]` with its opening tag closed at `g` and its
   * token at `k`: `<script` followed by a non-word character, the first `>`,
   * and the token part from the first position after the tag from which it
   * matches.
   */
  ghost predicate Base64ScriptShape(s: string, p: nat, g: nat, k: nat, h: Hit) {
    && OccursCiAt(s, p, "<script") && (p + 7 < |s| ==> !IsWordChar(s[p + 7]))
    && p + 7 <= g < |s| && s[g] == '>' && (forall x :: p + 7 <= x < g ==> s[x] != '>')
    && g < k <= |s| && TokenThenClose(s, k) == Some(h)
    && forall x :: g < x < k ==> !TokenMatches(s)(x)
  }

  /** Every rule-5 match has the shape. */
  lemma Base64ScriptMatchHasShape(s: string, p: nat)
    requires p < |s| && Base64ScriptAt(s, p).Some?
    ensures exists g, k :: Base64ScriptShape(s, p, g, k, Base64ScriptAt(s, p).value)
  {
    var g := FindGt(s, p + 7).value;
    FindGtFree(s, p + 7);
    var k := First(g + 1, |s|, TokenMatches(s)).value;
    Base64ScriptFrom(s, p, g, k);
    assert Base64ScriptShape(s, p, g, k, Base64ScriptAt(s, p).value);
  }

  /** Whatever has the shape is the rule-5 match. */
  lemma ShapeIsBase64ScriptMatch(s: string, p: nat, g: nat, k: nat, h: Hit)
    requires p < |s| && Base64ScriptShape(s, p, g, k, h)
    ensures Base64ScriptAt(s, p) == Some(h)
  {
    TokenShapeIsFirst(s, p, g, k, h);
    Base64ScriptFrom(s, p, g, k);
  }

  /** The tag end of the shape is the first `>`, and its token position the first one that works. */
  lemma TokenShapeIsFirst(s: string, p: nat, g: nat, k: nat, h: Hit)
    requires Base64ScriptShape(s, p, g, k, h)
    ensures FindGt(s, p + 7) == Some(g) && First(g + 1, |s|, TokenMatches(s)) == Some(k)
  {
    FindGtUnique(s, p + 7, g);
    FirstUnique(g + 1, |s|, TokenMatches(s), k);
  }

  /** Once the tag end and the token position are known, rule 5 at `p` is the token part from there. */
  lemma Base64ScriptFrom(s: string, p: nat, g: nat, k: nat)
    requires p < |s| && OccursCiAt(s, p, "<script") && (p + 7 < |s| ==> !IsWordChar(s[p + 7]))
    requires FindGt(s, p + 7) == Some(g) && First(g + 1, |s|, TokenMatches(s)) == Some(k)
    ensures k <= |s| && Base64ScriptAt(s, p) == TokenThenClose(s, k)
  {
    TokenAfterTag(s, g, k);
  }

  /** Once the token position is known, the rest of rule 5 is the token part from there. */
  lemma TokenAfterTag(s: string, g: nat, k: nat)
    requires First(g + 1, |s|, TokenMatches(s)) == Some(k)
    ensures k <= |s| && TokensAfterTag(s, g) == TokenThenClose(s, k)
  {
  }

  // ---------------------------------------------------------------------------
  // Rule 6: each piece, from where the previous one ended, matches exactly
  // when its shape holds, and the shape fixes where the piece ends.
  // ---------------------------------------------------------------------------

  /** `eval\s*\(` matches at `p` with its parenthesis at `a`. */
  lemma EvalParenMatches(s: string, p: nat, a: nat)
    ensures EvalParen(s, p) == Some(a + 1) <==> OccursCiAt(s, p, "eval") && SpacesThen(s, p + 4, a, '(')
  {
    if OccursCiAt(s, p, "eval") {
      SpacedCharMatches(s, p + 4, a, '(');
    }
  }

  /** `s[i..c + 1]` is whitespace up to `b`, `atob` at `b`, whitespace, and `(` at `c`. */
  ghost predicate AtobParenShape(s: string, i: nat, b: nat, c: nat) {
    SpacesTo(s, i, b) && OccursCiAt(s, b, "atob") && SpacesThen(s, b + 4, c, '(')
  }

  /** `\s*atob\s*\(` matches from `i` with its parenthesis at `c`. */
  lemma AtobParenMatches(s: string, i: nat, c: nat)
    requires i <= |s|
    ensures AtobParen(s, i) == Some(c + 1) <==> exists b :: AtobParenShape(s, i, b, c)
  {
    var b := SkipSpaces(s, i);
    if OccursCiAt(s, b, "atob") {
      SpacedCharMatches(s, b + 4, c, '(');
    }
    if AtobParen(s, i) == Some(c + 1) {
      assert AtobParenShape(s, i, b, c);
    }
    forall b' | AtobParenShape(s, i, b', c)
      ensures AtobParen(s, i) == Some(c + 1)
    {
      SkipSpacesUnique(s, i, b');
    }
  }

  /**
   * `s[i..e + 1]` is whitespace up to `d`, an opening quote or backtick at
   * `d`, at least 40 base64-like characters, and the same quote at `e`.
   */
  ghost predicate QuotedTokenShape(s: string, i: nat, d: nat, e: nat) {
    && SpacesTo(s, i, d)
    && d < e < |s| && IsQuoteOrBacktick(s[d]) && e - d > 40
    && (forall k {:trigger IsBase64Char(s[k])} :: d < k < e ==> IsBase64Char(s[k]))
    && s[e] == s[d]
  }

  /** `\s*(['"`])([A-Za-z0-9+\/=]{40,})\1` matches from `i` with its quotes at `d` and `e`. */
  lemma QuotedTokenMatches(s: string, i: nat, d: nat, e: nat)
    requires i <= |s|
    ensures QuotedToken(s, i) == Some((d, e)) <==> QuotedTokenShape(s, i, d, e)
  {
    if QuotedTokenShape(s, i, d, e) {
      SkipSpacesUnique(s, i, d);
      assert !IsBase64Char(s[e]);
      assert Base64RunEnd(s, d + 1) == e;
    }
  }

  /**
   * `s[i..r]` is whitespace, `)` at `f`, whitespace, `)` at `g`, the
   * whitespace run up to `h`, and the `;` there if there is one.
   */
  ghost predicate CloseParensShape(s: string, i: nat, f: nat, g: nat, h: nat, r: nat) {
    && SpacesThen(s, i, f, ')')
    && SpacesThen(s, f + 1, g, ')')
    && SpacesTo(s, g + 1, h)
    && r == (if h < |s| && s[h] == ';' then h + 1 else h)
  }

  /** `\s*\)\s*\)\s*;?` matches from `i` up to `r`, taking the `;` when there is one. */
  lemma CloseParensMatches(s: string, i: nat, r: nat)
    requires i <= |s|
    ensures CloseParens(s, i) == Some(r) <==> exists f, g, h :: CloseParensShape(s, i, f, g, h, r)
  {
    if CloseParens(s, i) == Some(r) {
      var f := SpacedChar(s, i, ')').value - 1;
      SpacedCharMatches(s, i, f, ')');
      var g := SpacedChar(s, f + 1, ')').value - 1;
      SpacedCharMatches(s, f + 1, g, ')');
      var h := SkipSpaces(s, g + 1);
      assert CloseParensShape(s, i, f, g, h, r);
    }
    forall f: nat, g: nat, h: nat | CloseParensShape(s, i, f, g, h, r)
      ensures CloseParens(s, i) == Some(r)
    {
      SpacedCharMatches(s, i, f, ')');
      SpacedCharMatches(s, f + 1, g, ')');
      SkipSpacesUnique(s, g + 1, h);
    }
  }
}
