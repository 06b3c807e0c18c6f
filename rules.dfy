/**
 * The six rewrite patterns of the HTML sanitiser, one matcher each.
 *
 * A matcher answers the question the regular-expression engine answers at one
 * start position during a global replace: does the pattern match here, and if
 * so, where does the match the engine picks (leftmost, then by the
 * priority of greedy and lazy quantifiers and of alternatives) end?  Each
 * matcher is written in the shape of its pattern; the comments say why a
 * greedy or lazy choice settles where it does.
 */
module Rules {
  import opened Scan

  /** The six passes, in the order the handler applies them. */
  datatype Rule =
    | EventHandlers   // 1: inline event-handler attributes
    | AdIframes       // 2: ad iframes
    | AdDivs          // 3: ad divs
    | KeywordScripts  // 4: scripts mentioning a suspicious keyword
    | Base64Scripts   // 5: scripts carrying a long base64-like token
    | EvalAtob        // 6: `eval(atob('...'))` expressions

  /** Where a match ends, and the text of its capture group (used by rule 5 only). */
  datatype Hit = Hit(end: nat, capture: string)

  /** The opaque `Buffer.from(token, "base64").toString("utf8")`; `None` when it throws. */
  type Decoder = string -> Option<string>

  predicate IsQuote(c: char) { c == '\'' || c == '"' }

  predicate IsQuoteOrBacktick(c: char) { c == '\'' || c == '"' || c == '`' }

  /** The first `'` or `"` at or after `i`, if any. */
  function FindQuote(s: string, i: nat): (r: Option<nat>)
    decreases |s| - i
    ensures r.Some? ==> i <= r.value < |s| && IsQuote(s[r.value])
  {
    if i >= |s| then None else if IsQuote(s[i]) then Some(i) else FindQuote(s, i + 1)
  }

  /** No quote comes before the one `FindQuote` finds; with none found, there is none at all. */
  lemma {:induction false} FindQuoteFree(s: string, i: nat)
    decreases |s| - i
    ensures FindQuote(s, i).Some? ==> forall k {:trigger IsQuote(s[k])} :: i <= k < FindQuote(s, i).value ==> !IsQuote(s[k])
    ensures FindQuote(s, i).None? ==> forall k {:trigger IsQuote(s[k])} :: i <= k < |s| ==> !IsQuote(s[k])
  {
    if i < |s| && !IsQuote(s[i]) {
      FindQuoteFree(s, i + 1);
    }
  }

  /** The index of the first alternative of `alts` (lower-case) that matches at `i`, ignoring case. */
  function FirstAlternative(s: string, i: nat, alts: seq<string>): (r: Option<nat>)
    ensures r.Some? ==> r.value < |alts| && OccursCiAt(s, i, alts[r.value])
    ensures r.Some? ==> forall j :: 0 <= j < r.value ==> !OccursCiAt(s, i, alts[j])
    ensures r.None? ==> forall j :: 0 <= j < |alts| ==> !OccursCiAt(s, i, alts[j])
  {
    var P := (j: nat) => j < |alts| && OccursCiAt(s, i, alts[j]);
    assert forall j: nat :: P(j) == (j < |alts| && OccursCiAt(s, i, alts[j]));
    First(0, |alts|, P)
  }

  /** `\s*` then the character `c`, from `i`: the position after `c`. */
  function SpacedChar(s: string, i: nat, c: char): (r: Option<nat>)
    requires i <= |s|
    ensures r.Some? ==> i < r.value <= |s| && s[r.value - 1] == c
  {
    var j := SkipSpaces(s, i);
    if j < |s| && s[j] == c then Some(j + 1) else None
  }

  // ---------------------------------------------------------------------------
  // Rule 1: \s(on(?:click|mouseover|mouseout|mouseenter|mouseleave|beforeunload|load|error))\s*=\s*(['"]).*?\2
  // ---------------------------------------------------------------------------

  const EventNames: seq<string> :=
    ["click", "mouseover", "mouseout", "mouseenter", "mouseleave", "beforeunload", "load", "error"]

  /**
   * `.*?\2` from `i`: the first occurrence of the opening quote `q`, provided no
   * line terminator comes before it (`.` does not match one).
   */
  function ValueClose(s: string, i: nat, q: char): (r: Option<nat>)
    requires !IsLineTerminator(q)
    ensures r.Some? ==> i <= r.value < |s| && s[r.value] == q
    ensures r.Some? ==> forall k :: i <= k < r.value ==> s[k] != q && !IsLineTerminator(s[k])
    decreases |s| - i
  {
    if i >= |s| || IsLineTerminator(s[i]) then None
    else if s[i] == q then Some(i)
    else ValueClose(s, i + 1, q)
  }

  /** `\s(on(?:click|...|error))` at `p`: the end of the event name. */
  function EventNameAt(s: string, p: nat): (r: Option<nat>)
    requires p < |s|
    ensures r.Some? ==> p + 7 <= r.value <= |s| && IsSpace(s[p])
  {
    if !IsSpace(s[p]) || !OccursCiAt(s, p + 1, "on") then None
    else
      match FirstAlternative(s, p + 3, EventNames)
      case None => None
      case Some(j) => Some(p + 3 + |EventNames[j]|)
  }

  /** `\s*(['"])` from `i`: the position of the quote. */
  function OpenQuote(s: string, i: nat): (r: Option<nat>)
    requires i <= |s|
    ensures r.Some? ==> i <= r.value < |s| && IsQuote(s[r.value])
  {
    var q := SkipSpaces(s, i);
    if q < |s| && IsQuote(s[q]) then Some(q) else None
  }

  /**
   * Rule 1 at `p`: the pieces in order.  The event names never match at the
   * same place, each `\s*` is followed by a character that is not a space, and
   * the lazy value stops at the first matching quote, so each piece matches
   * in at most one way from where the previous one ended.
   */
  function EventHandlerAt(s: string, p: nat): (r: Option<nat>)
    requires p < |s|
    ensures r.Some? ==> p + 10 <= r.value <= |s|
    ensures r.Some? ==> IsSpace(s[p]) && IsQuote(s[r.value - 1])
    ensures !IsSpace(s[p]) ==> r.None?
  {
    match EventNameAt(s, p)
    case None => None
    case Some(n) =>
      match SpacedChar(s, n, '=')
      case None => None
      case Some(i) =>
        match OpenQuote(s, i)
        case None => None
        case Some(q) =>
          match ValueClose(s, q + 1, s[q])
          case None => None
          case Some(c) => Some(c + 1)
  }

  /**
   * `[^>]*>[\s\S]*?` followed by the lower-case closing tag `close`, from `i`:
   * the opening tag ends at the first `>`, the element at the first `close`
   * after it.
   */
  function ElementEnd(s: string, i: nat, close: string): (r: Option<nat>)
    requires |close| > 0
    ensures r.Some? ==> i + 1 + |close| <= r.value <= |s|
  {
    match FindGt(s, i)
    case None => None
    case Some(g) =>
      match FindCi(s, close, g + 1)
      case None => None
      case Some(c) => Some(c + |close|)
  }

  // ---------------------------------------------------------------------------
  // Rule 2: <iframe[^>]*(sponsor|ad|popup|popunder|overlay|doubleclick)[^>]*>[\s\S]*?<\/iframe>
  // ---------------------------------------------------------------------------

  const IframeKeywords: seq<string> := ["sponsor", "ad", "popup", "popunder", "overlay", "doubleclick"]

  /**
   * Rule 2 at `p`.  Nothing before the `>` may be a `>`, so the tag ends at the
   * first `>`; a keyword must occur anywhere between `<iframe` and that `>`
   * (inside a word too); the lazy body stops at the first `</iframe>`.
   */
  function AdIframeAt(s: string, p: nat): (r: Option<nat>)
    requires p < |s|
    ensures r.Some? ==> p + 17 <= r.value <= |s|
    ensures !OccursCiAt(s, p, "<iframe") ==> r.None?
  {
    if !OccursCiAt(s, p, "<iframe") then None
    else
      match FindGt(s, p + 7)
      case None => None
      case Some(g) =>
        if !ContainsAnyCiIn(s, p + 7, g, IframeKeywords) then None
        else
          match FindCi(s, "</iframe>", g + 1)
          case None => None
          case Some(c) => Some(c + 9)
  }

  // ---------------------------------------------------------------------------
  // Rule 3: <div[^>]*(class|id)=['"][^'"]*(overlay|ad-|ads|popunder|sponsor|modal)[^'"]*['"][^>]*>[\s\S]*?<\/div>
  // ---------------------------------------------------------------------------

  const DivKeywords: seq<string> := ["overlay", "ad-", "ads", "popunder", "sponsor", "modal"]

  /** `(class|id)=['"]` at `t`: the position of the opening quote.  The two names differ in their first letter. */
  function AttrOpenQuote(s: string, t: nat): (r: Option<nat>)
    requires t <= |s|
    ensures r.Some? ==> t + 3 <= r.value < |s| && IsQuote(s[r.value])
  {
    var v := if OccursCiAt(s, t, "class=") then t + 6 else if OccursCiAt(s, t, "id=") then t + 3 else t;
    if v == t || v == |s| || !IsQuote(s[v]) then None else Some(v)
  }

  /**
   * Rule 3 with its attribute name at `t`.  The value runs to the first quote of
   * either kind (neither `[^'"]*` can cross one, and the two quotes need not be
   * the same); a keyword must occur inside it; the tag then ends at the first
   * `>` after the value, and the lazy body at the first `</div>`, not at the
   * balancing one.
   */
  function AdDivAttrAt(s: string, t: nat): (r: Option<nat>)
    requires t <= |s|
    ensures r.Some? ==> t + 15 <= r.value <= |s|
  {
    match AttrOpenQuote(s, t)
    case None => None
    case Some(v) => AdDivValueAt(s, v + 1)
  }

  /** The positions from which the part of rule 3 after the leading `[^>]*` matches. */
  function AttrMatches(s: string): nat -> bool {
    (t: nat) => t <= |s| && AdDivAttrAt(s, t).Some?
  }

  /** Rule 3 from just after the opening quote of the attribute value at `v`. */
  function AdDivValueAt(s: string, v: nat): (r: Option<nat>)
    ensures r.Some? ==> v + 11 <= r.value <= |s|
  {
    match FindQuote(s, v)
    case None => None
    case Some(w) =>
      if !ContainsAnyCiIn(s, v, w, DivKeywords) then None
      else ElementEnd(s, w + 1, "</div>")
  }

  /**
   * Rule 3 at `p`.  The leading greedy `[^>]*` first takes everything up to
   * the first `>` (or the end of the text), then gives back one character at
   * a time, so the attribute name is tried from that point downwards and the
   * last position that works is taken; the value may contain `>`, so the
   * attribute can sit anywhere before that point.
   */
  function AdDivAt(s: string, p: nat): (r: Option<nat>)
    requires p < |s|
    ensures r.Some? ==> p + 19 <= r.value <= |s|
    ensures !OccursCiAt(s, p, "<div") ==> r.None?
  {
    if !OccursCiAt(s, p, "<div") then None
    else
      match Last(p + 4, TagLimit(s, p + 4) + 1, AttrMatches(s))
      case None => None
      case Some(t) => AdDivAttrAt(s, t)
  }

  /**
   * How far a greedy `[^>]*` from `i` reaches: the first `>`, or the end of
   * the text (`TagLimitFree` gives the characters before it).
   */
  function TagLimit(s: string, i: nat): (r: nat)
    requires i <= |s|
    ensures i <= r <= |s| && (r < |s| ==> s[r] == '>')
    decreases |s| - i
  {
    if i == |s| || s[i] == '>' then i else TagLimit(s, i + 1)
  }

  /** No `>` comes before the reach of a greedy `[^>]*`. */
  lemma {:induction false} TagLimitFree(s: string, i: nat)
    requires i <= |s|
    decreases |s| - i
    ensures forall k :: i <= k < TagLimit(s, i) ==> s[k] != '>'
  {
    if i < |s| && s[i] != '>' {
      TagLimitFree(s, i + 1);
    }
  }

  // ---------------------------------------------------------------------------
  // Rule 4: <script[^>]*>[\s\S]*?(?:popunder|pop_up|popup|ads|sponsor|redirect|atob|document\.write|window\.open)[\s\S]*?<\/script>
  // ---------------------------------------------------------------------------

  const ScriptKeywords: seq<string> :=
    ["popunder", "pop_up", "popup", "ads", "sponsor", "redirect", "atob", "document.write", "window.open"]

  /** A keyword at `k`, then the lazy second gap up to the first `</script>` after it. */
  function KeywordThenClose(s: string, k: nat): (r: Option<nat>)
    ensures r.Some? ==> k + 9 <= r.value <= |s|
  {
    match FirstAlternative(s, k, ScriptKeywords)
    case None => None
    case Some(j) =>
      match FindCi(s, "</script>", k + |ScriptKeywords[j]|)
      case None => None
      case Some(c) => Some(c + 9)
  }

  /** The positions from which a keyword and then a `</script>` follow. */
  function KeywordMatches(s: string): nat -> bool {
    (k: nat) => KeywordThenClose(s, k).Some?
  }

  /**
   * Rule 4 at `p`.  The opening tag ends at the first `>`.  The first lazy gap
   * grows one character at a time, so the keyword is the first position after
   * the tag from which a keyword and then a `</script>` follow; nothing stops
   * either gap at a `</script>`, so the keyword may sit in a later script and
   * the match then swallows every script in between.
   */
  function KeywordScriptAt(s: string, p: nat): (r: Option<nat>)
    requires p < |s|
    ensures r.Some? ==> p + 17 <= r.value <= |s|
    ensures !OccursCiAt(s, p, "<script") ==> r.None?
  {
    if !OccursCiAt(s, p, "<script") then None
    else
      match FindGt(s, p + 7)
      case None => None
      case Some(g) => KeywordsAfterTag(s, g)
  }

  /** The lazy gap after the opening tag closed at `g`, then the keyword part. */
  function KeywordsAfterTag(s: string, g: nat): (r: Option<nat>)
    ensures r.Some? ==> g + 10 <= r.value <= |s|
  {
    match First(g + 1, |s|, KeywordMatches(s))
    case None => None
    case Some(k) => KeywordThenClose(s, k)
  }

  // ---------------------------------------------------------------------------
  // Rule 5: <script\b[^>]*>[\s\S]*?([A-Za-z0-9+\/=]{80,})[\s\S]*?<\/script>
  // ---------------------------------------------------------------------------

  /**
   * A token of 80 or more base64-like characters at `k`, then the lazy gap up
   * to the first `</script>`.  The greedy `{80,}` first takes the whole run; a
   * shorter token could only help if a `</script>` began inside the run, and
   * none can (`<` is not a base64 character), so the capture is the whole run.
   */
  function TokenThenClose(s: string, k: nat): (r: Option<Hit>)
    requires k <= |s|
    ensures r.Some? ==> k + 89 <= r.value.end <= |s|
    ensures r.Some? ==> |r.value.capture| >= 80 && k + |r.value.capture| <= |s|
    ensures r.Some? ==> s[k..k + |r.value.capture|] == r.value.capture
    ensures r.Some? ==> forall c :: c in r.value.capture ==> IsBase64Char(c)
  {
    var e := Base64RunEnd(s, k);
    if e - k < 80 then None
    else
      match FindCi(s, "</script>", e)
      case None => None
      case Some(c) => Some(Hit(c + 9, s[k..e]))
  }

  /** The positions from which a long token and then a `</script>` follow. */
  function TokenMatches(s: string): nat -> bool {
    (k: nat) => k <= |s| && TokenThenClose(s, k).Some?
  }

  /**
   * Rule 5 at `p`.  `\b` after `<script` holds when the next character is not a
   * word character; the opening tag ends at the first `>`; the first lazy gap
   * grows until a long token followed by a `</script>` is found.
   */
  function Base64ScriptAt(s: string, p: nat): (r: Option<Hit>)
    requires p < |s|
    ensures r.Some? ==> p + 97 <= r.value.end <= |s|
    ensures r.Some? ==> |r.value.capture| >= 80 && forall c :: c in r.value.capture ==> IsBase64Char(c)
    ensures !OccursCiAt(s, p, "<script") ==> r.None?
  {
    if !OccursCiAt(s, p, "<script") then None
    else if p + 7 < |s| && IsWordChar(s[p + 7]) then None
    else
      match FindGt(s, p + 7)
      case None => None
      case Some(g) => TokensAfterTag(s, g)
  }

  /** The lazy gap after the opening tag closed at `g`, then the token part. */
  function TokensAfterTag(s: string, g: nat): (r: Option<Hit>)
    ensures r.Some? ==> g + 90 <= r.value.end <= |s|
    ensures r.Some? ==> |r.value.capture| >= 80 && forall c :: c in r.value.capture ==> IsBase64Char(c)
  {
    match First(g + 1, |s|, TokenMatches(s))
    case None => None
    case Some(k) => TokenThenClose(s, k)
  }

  /** The patterns that make a decoded rule-5 token malicious (matched case-sensitively). */
  const BadPatterns: seq<string> :=
    ["window.open", "document.write", "eval", "atob", "popunder", "redirect", "ad_", "sponsor", "click"]

  /**
   * The rule-5 replacement callback: the whole script goes when its token
   * decodes to text with a bad pattern; it stays, byte for byte, when the text
   * is clean or decoding throws.
   */
  function ScriptVerdict(matched: string, token: string, decode: Decoder): (r: string)
  {
    match decode(token)
    case Some(text) => if ContainsAny(text, BadPatterns) then "" else matched
    case None => matched
  }

  // ---------------------------------------------------------------------------
  // Rule 6: eval\s*\(\s*atob\s*\(\s*(['"`])([A-Za-z0-9+\/=]{40,})\1\s*\)\s*\)\s*;?
  // ---------------------------------------------------------------------------

  /** `eval\s*\(` at `p`: the position after the parenthesis. */
  function EvalParen(s: string, p: nat): (r: Option<nat>)
    ensures r.Some? ==> p + 5 <= r.value <= |s| && OccursCiAt(s, p, "eval")
    ensures !OccursCiAt(s, p, "eval") ==> r.None?
  {
    if !OccursCiAt(s, p, "eval") then None else SpacedChar(s, p + 4, '(')
  }

  /** `\s*atob\s*\(` from `i`: the position after the parenthesis. */
  function AtobParen(s: string, i: nat): (r: Option<nat>)
    requires i <= |s|
    ensures r.Some? ==> i + 5 <= r.value <= |s|
  {
    var b := SkipSpaces(s, i);
    if !OccursCiAt(s, b, "atob") then None else SpacedChar(s, b + 4, '(')
  }

  /**
   * `\s*(['"`])([A-Za-z0-9+\/=]{40,})\1` from `i`: the positions of the opening
   * and the closing quote.  The greedy token must be followed by the opening
   * quote, which is not a base64 character, so the token is the whole run.
   */
  function QuotedToken(s: string, i: nat): (r: Option<(nat, nat)>)
    requires i <= |s|
    ensures r.Some? ==> var (d, e) := r.value;
      && i <= d && d + 40 < e < |s|
      && IsQuoteOrBacktick(s[d]) && s[e] == s[d]
      && forall k {:trigger IsBase64Char(s[k])} :: d < k < e ==> IsBase64Char(s[k])
  {
    var d := SkipSpaces(s, i);
    if d == |s| || !IsQuoteOrBacktick(s[d]) then None
    else
      var e := Base64RunEnd(s, d + 1);
      if e - (d + 1) < 40 || e == |s| || s[e] != s[d] then None
      else Some((d, e))
  }

  /**
   * `\s*\)\s*\)\s*;?` from `i`: the end.  Each `\s*` before a parenthesis is
   * followed by a non-space; the last one and the optional `;` are greedy and
   * nothing follows them, so the `;` is taken when present.
   */
  function CloseParens(s: string, i: nat): (r: Option<nat>)
    requires i <= |s|
    ensures r.Some? ==> i + 2 <= r.value <= |s|
  {
    match SpacedChar(s, i, ')')
    case None => None
    case Some(f) =>
      match SpacedChar(s, f, ')')
      case None => None
      case Some(g) =>
        var h := SkipSpaces(s, g);
        if h < |s| && s[h] == ';' then Some(h + 1) else Some(h)
  }

  /** The head of rule 6, up to and including the closing quote: the positions of both quotes. */
  function EvalAtobQuotes(s: string, p: nat): (r: Option<(nat, nat)>)
    ensures r.Some? ==> var (d, e) := r.value;
      && p + 10 <= d && d + 40 < e < |s|
      && OccursCiAt(s, p, "eval")
      && IsQuoteOrBacktick(s[d]) && s[e] == s[d]
      && forall k {:trigger IsBase64Char(s[k])} :: d < k < e ==> IsBase64Char(s[k])
    ensures !OccursCiAt(s, p, "eval") ==> r.None?
  {
    match EvalParen(s, p)
    case None => None
    case Some(i) =>
      match AtobParen(s, i)
      case None => None
      case Some(j) => QuotedToken(s, j)
  }

  /**
   * Rule 6 at `p`: the pieces in order.  Each piece matches in at most one way
   * from where the previous one ended, so the engine never backtracks from a
   * piece into the one before it.
   */
  function EvalAtobAt(s: string, p: nat): (r: Option<nat>)
    ensures r.Some? ==> p + 52 <= r.value <= |s|
    ensures r.Some? ==> OccursCiAt(s, p, "eval")
    ensures !OccursCiAt(s, p, "eval") ==> r.None?
  {
    match EvalAtobQuotes(s, p)
    case None => None
    case Some((d, e)) => CloseParens(s, e + 1)
  }

  // ---------------------------------------------------------------------------
  // Dispatch
  // ---------------------------------------------------------------------------

  function Plain(r: Option<nat>): Option<Hit> {
    match r
    case Some(e) => Some(Hit(e, ""))
    case None => None
  }

  /** The match `rule` has at `p`, if any; a match is never empty. */
  function MatchAt(rule: Rule, s: string, p: nat): (r: Option<Hit>)
    requires p < |s|
    ensures r.Some? ==> p < r.value.end <= |s|
  {
    match rule
    case EventHandlers => Plain(EventHandlerAt(s, p))
    case AdIframes => Plain(AdIframeAt(s, p))
    case AdDivs => Plain(AdDivAt(s, p))
    case KeywordScripts => Plain(KeywordScriptAt(s, p))
    case Base64Scripts => Base64ScriptAt(s, p)
    case EvalAtob => Plain(EvalAtobAt(s, p))
  }

  /**
   * What a match `s[p..h.end]` of `rule` is replaced with: a single space for
   * rule 1, the callback's verdict for rule 5, nothing for the others.
   */
  function Replacement(rule: Rule, s: string, p: nat, h: Hit, decode: Decoder): (r: string)
    requires p < h.end <= |s|
    ensures |r| <= h.end - p
    ensures r == "" || r == " " || r == s[p..h.end]
  {
    match rule
    case EventHandlers => " "
    case Base64Scripts => ScriptVerdict(s[p..h.end], h.capture, decode)
    case _ => ""
  }
}
