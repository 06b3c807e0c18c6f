/**
 * The HTML sanitiser: six global replaces applied one after the other.
 *
 * `ReplaceFrom` is the meaning of `String.prototype.replace` with a global
 * pattern, for any pattern given as a matcher and any replacement given as a
 * function of the match: scan left to right; where the pattern matches,
 * emit the replacement and resume after the match; elsewhere copy one
 * character.  `GlobalReplace` is that scan as a loop, proved equal to the
 * function.  `Pass` instantiates both with one of the six rules.
 */
module Sanitizer {
  import opened Scan
  import opened Rules

  /** A pattern: the match, if any, that starts at a position. */
  type Matcher = (string, nat) -> Option<Hit>

  /** A replacement: the text that stands in for the match `s[p..h.end]`. */
  type Replacer = (string, nat, Hit) -> string

  /** Every match of `m` in `s` is non-empty and ends inside `s`. */
  ghost predicate Advances(m: Matcher, s: string) {
    forall p :: 0 <= p < |s| && m(s, p).Some? ==> p < m(s, p).value.end <= |s|
  }

  /** What a global replace makes of `s[p..]`. */
  function ReplaceFrom(m: Matcher, rep: Replacer, s: string, p: nat): string
    requires Advances(m, s) && p <= |s|
    decreases |s| - p
  {
    if p == |s| then ""
    else
      match m(s, p)
      case Some(h) => rep(s, p, h) + ReplaceFrom(m, rep, s, h.end)
      case None => [s[p]] + ReplaceFrom(m, rep, s, p + 1)
  }

  /** One global replace, as the left-to-right scan the regex engine performs. */
  method GlobalReplace(m: Matcher, rep: Replacer, s: string) returns (out: string)
    requires Advances(m, s)
    ensures out == ReplaceFrom(m, rep, s, 0)
  {
    out := "";
    var p := 0;
    while p < |s|
      invariant p <= |s|
      invariant out + ReplaceFrom(m, rep, s, p) == ReplaceFrom(m, rep, s, 0)
      decreases |s| - p
    {
      var piece: string, next: nat;
      match m(s, p) {
        case Some(h) =>
          piece, next := rep(s, p, h), h.end;
        case None =>
          piece, next := [s[p]], p + 1;
      }
      var rest := ReplaceFrom(m, rep, s, next);
      assert (out + piece) + rest == out + (piece + rest);
      out, p := out + piece, next;
    }
  }

  /** The pattern of `rule` as a matcher. */
  function MatcherOf(rule: Rule): Matcher {
    (s: string, p: nat) => if p < |s| then MatchAt(rule, s, p) else None
  }

  /** The replacement of `rule` as a replacer; `decode` serves the rule-5 callback. */
  function ReplacerOf(rule: Rule, decode: Decoder): Replacer {
    (s: string, p: nat, h: Hit) => if p < h.end <= |s| then Replacement(rule, s, p, h, decode) else ""
  }

  /** The six patterns only ever match non-empty stretches of the text. */
  lemma RuleAdvances(rule: Rule, s: string)
    ensures Advances(MatcherOf(rule), s)
  {
    forall p | 0 <= p < |s| && MatcherOf(rule)(s, p).Some?
      ensures p < MatcherOf(rule)(s, p).value.end <= |s|
    {
      assert MatcherOf(rule)(s, p) == MatchAt(rule, s, p);
    }
  }

  /** What a global replace with the pattern and replacement of `rule` makes of `s[p..]`. */
  function RuleReplaceFrom(rule: Rule, s: string, decode: Decoder, p: nat): string
    requires p <= |s|
  {
    RuleAdvances(rule, s);
    ReplaceFrom(MatcherOf(rule), ReplacerOf(rule, decode), s, p)
  }

  /** `s.replace(pattern, replacement)` for the global pattern of `rule`. */
  function ReplaceAll(rule: Rule, s: string, decode: Decoder): string {
    RuleReplaceFrom(rule, s, decode, 0)
  }

  /** One sanitisation pass: a global replace with the pattern and replacement of `rule`. */
  method Pass(rule: Rule, s: string, decode: Decoder) returns (out: string)
    ensures out == ReplaceAll(rule, s, decode)
  {
    RuleAdvances(rule, s);
    out := GlobalReplace(MatcherOf(rule), ReplacerOf(rule, decode), s);
  }

  /** The six passes in their fixed order; each works on the output of the one before. */
  function Sanitized(html: string, decode: Decoder): string {
    var h1 := ReplaceAll(EventHandlers, html, decode);
    var h2 := ReplaceAll(AdIframes, h1, decode);
    var h3 := ReplaceAll(AdDivs, h2, decode);
    var h4 := ReplaceAll(KeywordScripts, h3, decode);
    var h5 := ReplaceAll(Base64Scripts, h4, decode);
    ReplaceAll(EvalAtob, h5, decode)
  }

  /** No replacement is longer than the match it stands in for. */
  ghost predicate Shortens(m: Matcher, rep: Replacer, s: string)
    requires Advances(m, s)
  {
    forall p :: 0 <= p < |s| && m(s, p).Some? ==> |rep(s, p, m(s, p).value)| <= m(s, p).value.end - p
  }

  /** A global replace whose replacements are never longer than their matches never makes the text longer. */
  lemma {:induction false} ReplaceNeverLengthens(m: Matcher, rep: Replacer, s: string, p: nat)
    requires Advances(m, s) && Shortens(m, rep, s) && p <= |s|
    decreases |s| - p
    ensures |ReplaceFrom(m, rep, s, p)| <= |s| - p
  {
    if p < |s| {
      match m(s, p)
      case Some(h) => ReplaceNeverLengthens(m, rep, s, h.end);
      case None => ReplaceNeverLengthens(m, rep, s, p + 1);
    }
  }

  /** A pass of any rule never makes the text longer. */
  lemma PassNeverLengthens(rule: Rule, s: string, decode: Decoder)
    ensures |ReplaceAll(rule, s, decode)| <= |s|
  {
    var m, rep := MatcherOf(rule), ReplacerOf(rule, decode);
    RuleAdvances(rule, s);
    forall p | 0 <= p < |s| && m(s, p).Some?
      ensures |rep(s, p, m(s, p).value)| <= m(s, p).value.end - p
    {
      assert m(s, p) == MatchAt(rule, s, p);
    }
    ReplaceNeverLengthens(m, rep, s, 0);
  }

  /** Sanitisation never lengthens the document. */
  lemma SanitizedNeverLengthens(html: string, decode: Decoder)
    ensures |Sanitized(html, decode)| <= |html|
  {
    var h1 := ReplaceAll(EventHandlers, html, decode);
    var h2 := ReplaceAll(AdIframes, h1, decode);
    var h3 := ReplaceAll(AdDivs, h2, decode);
    var h4 := ReplaceAll(KeywordScripts, h3, decode);
    var h5 := ReplaceAll(Base64Scripts, h4, decode);
    PassNeverLengthens(EventHandlers, html, decode);
    PassNeverLengthens(AdIframes, h1, decode);
    PassNeverLengthens(AdDivs, h2, decode);
    PassNeverLengthens(KeywordScripts, h3, decode);
    PassNeverLengthens(Base64Scripts, h4, decode);
    PassNeverLengthens(EvalAtob, h5, decode);
  }

  /** Every match at or after `p` is replaced by its own text. */
  ghost predicate KeepsEveryMatch(m: Matcher, rep: Replacer, s: string, p: nat)
    requires Advances(m, s)
  {
    forall q :: p <= q < |s| && m(s, q).Some? ==> rep(s, q, m(s, q).value) == s[q..m(s, q).value.end]
  }

  /** A global replace whose every match would be replaced by itself leaves the text unchanged. */
  lemma {:induction false} KeptMatchesLeaveTextUnchanged(m: Matcher, rep: Replacer, s: string, p: nat)
    requires Advances(m, s) && p <= |s|
    requires KeepsEveryMatch(m, rep, s, p)
    decreases |s| - p
    ensures ReplaceFrom(m, rep, s, p) == s[p..]
  {
    if p < |s| {
      match m(s, p)
      case Some(h) =>
        KeptMatchesLeaveTextUnchanged(m, rep, s, h.end);
        assert s[p..h.end] + s[h.end..] == s[p..];
      case None =>
        KeptMatchesLeaveTextUnchanged(m, rep, s, p + 1);
        assert [s[p]] + s[p + 1..] == s[p..];
    }
  }

  /** A global replace of a pattern that matches nowhere leaves the text unchanged. */
  lemma UnmatchedTextUnchanged(m: Matcher, rep: Replacer, s: string)
    requires Advances(m, s)
    requires forall q :: 0 <= q < |s| ==> m(s, q).None?
    ensures ReplaceFrom(m, rep, s, 0) == s
  {
    KeptMatchesLeaveTextUnchanged(m, rep, s, 0);
  }

  /** The token of a rule-5 match decodes to text carrying a bad pattern. */
  predicate Malicious(token: string, decode: Decoder) {
    decode(token).Some? && ContainsAny(decode(token).value, BadPatterns)
  }

  /** The callback removes a script exactly when its token is malicious, and otherwise returns it unchanged. */
  lemma ScriptVerdictRemovesOnlyMalicious(matched: string, token: string, decode: Decoder)
    ensures Malicious(token, decode) ==> ScriptVerdict(matched, token, decode) == ""
    ensures !Malicious(token, decode) ==> ScriptVerdict(matched, token, decode) == matched
  {
  }

  /**
   * Rule 5 keeps benign and undecodable scripts: when no long token in the
   * text decodes to a bad pattern (decoding that throws counts as benign),
   * the pass changes nothing, character for character.
   */
  lemma BenignBase64ScriptsKept(s: string, decode: Decoder)
    requires forall q :: 0 <= q < |s| && Base64ScriptAt(s, q).Some? ==>
      !Malicious(Base64ScriptAt(s, q).value.capture, decode)
    ensures ReplaceAll(Base64Scripts, s, decode) == s
  {
    var m, rep := MatcherOf(Base64Scripts), ReplacerOf(Base64Scripts, decode);
    RuleAdvances(Base64Scripts, s);
    forall q | 0 <= q < |s| && m(s, q).Some?
      ensures rep(s, q, m(s, q).value) == s[q..m(s, q).value.end]
    {
      assert m(s, q) == Base64ScriptAt(s, q);
      var h := m(s, q).value;
      ScriptVerdictRemovesOnlyMalicious(s[q..h.end], h.capture, decode);
    }
    KeptMatchesLeaveTextUnchanged(m, rep, s, 0);
  }

  /** When the scan reaches a rule-5 match whose token is malicious, the whole script is dropped. */
  lemma MaliciousBase64ScriptDropped(s: string, decode: Decoder, p: nat)
    requires p < |s| && Base64ScriptAt(s, p).Some?
    requires Malicious(Base64ScriptAt(s, p).value.capture, decode)
    ensures RuleReplaceFrom(Base64Scripts, s, decode, p)
            == RuleReplaceFrom(Base64Scripts, s, decode, Base64ScriptAt(s, p).value.end)
  {
    RuleAdvances(Base64Scripts, s);
    var h := Base64ScriptAt(s, p).value;
    assert MatcherOf(Base64Scripts)(s, p) == Base64ScriptAt(s, p);
    ScriptVerdictRemovesOnlyMalicious(s[p..h.end], h.capture, decode);
  }
}
