# A verified model of the autoembed reverse-proxy handler

`api/proxy.js` is a Vercel API route. It forwards a request under
`/api/proxy/` to the mirror `https://autoembed.co`. It passes every successful
(2xx) non-HTML reply (video, images, JSON) through unchanged. An HTML reply is rewritten
before it is sent back:

- six ordered regular-expression passes strip inline event handlers, ad
  iframes, ad divs, suspicious scripts, scripts with a malicious base64
  payload, and `eval(atob('…'))` expressions;
- an "early guard" script is inserted after the `<head…>` tag, or else
  before `</body>`;
- the page goes out with status 200, an HTML content type, an open CORS
  header and a permissive Content-Security-Policy.

Any failure becomes a 500 reply with a JSON error body.

The model is in seven modules.

- `Scan` (`scan.dfy`) holds the character classes of JavaScript regular
  expressions and literal matching that ignores ASCII case. It also has the
  finders `First`, `Last` and `FindCi`, each with its first / last-position
  contract, and `FindGt`, whose first-position fact is the lemma
  `FindGtFree`.
- `Rules` (`rules.dfy`) has one scanner per pattern. Each scanner returns
  the end of the match a backtracking JavaScript engine reports at a given
  position, and for rule 5 the captured token. `Rules.Replacement` is what
  each rule puts in place of a match, including the rule-5 callback.
- `RuleShapes` (`rule_shapes.dfy`) states what each piece of a pattern
  matches, the way the regular expression reads: the alternatives, the lazy
  and greedy quantifiers, and the back-reference. Each piece lemma is an
  "if and only if" between the piece's scanner and that description. For
  rules 1, 2, 4 and 5 these combine into a shape of the whole match, proved
  in both directions. The shapes of rules 3, 4 and 5 name some inner pieces
  through their `Rules` functions, whose meaning the piece lemmas fix.
  Rule 3 is proved in one direction only. Rule 6 is characterised piece by
  piece.
- `Sanitizer` (`sanitizer.dfy`) defines the meaning of a global
  `String.prototype.replace` as the function `ReplaceFrom`. `GlobalReplace`
  is the left-to-right scan loop, proved equal to that function. `Pass`
  runs one rule, `Sanitized` runs the six passes in order, and the file ends
  with the length and "unchanged text" lemmas and the three rule-5 lemmas
  about the callback.
- `Guard` (`guard.dfy`) inserts the guard.
- `Decimal` (`decimal.dfy`) renders the status number into the
  `Upstream <status>` message and proves that the rendering can be read back.
- `Proxy` (`proxy.dfy`) has the request, upstream and envelope datatypes.
  `Respond` is the specification of the whole exchange. `Handler` is the
  method that threads `html` through the passes the way the source does,
  proved equal to `Respond`.

Ignoring case in a JavaScript regular expression without the `u` flag never
maps a non-ASCII character onto an ASCII one. Every pattern here is ASCII,
so matching that ignores only ASCII case is exact.

The model follows the code as it stands:

- one hard-coded mirror, with no random user-agent or referer pools;
- no analytics allow-list, and no 404 "content not found" reply;
- `value || fallback`, so an empty client header also falls back to the
  default;
- a case-sensitive `includes("text/html")` on the content type;
- `<head[^>]*>` also matches `<header …>`;
- a `</BODY>` that receives the guard is written back as lower-case
  `</body>`;
- the comment above the policy header speaks of blocking inline eval, but
  the policy the code sends allows `'unsafe-eval'`. The model sends that
  policy.

## Model

| member | source | states |
|---|---|---|
| `Proxy.Respond` | api/proxy.js:2-150 | definition of the whole exchange: a rejected fetch, a non-2xx status or a failed body read gives the error reply; otherwise the content-type test chooses the pass-through or the HTML reply. Its properties are the `Proxy` lemmas below |
| `Proxy.TargetOf` | api/proxy.js:4-6 | definition of the URL fetched: the mirror, `/` and the resolved path (see `Proxy.ProxiedPathLandsOnMirror`) |
| `Proxy.BuildOutbound` | api/proxy.js:6-11 | definition of the request sent: the target and the two identity headers (see `Proxy.OutboundIdentity`) |
| `Proxy.ResolvePath` | api/proxy.js:4 | a URL starting with `/api/proxy/` loses exactly that prefix once; any other URL is kept whole |
| `Proxy.ProxiedPathLandsOnMirror` | api/proxy.js:4-6 | the target of `/api/proxy/` + path is the mirror, `/` and the path, for every path including the empty one |
| `Proxy.UnprefixedUrlForwardedWhole` | api/proxy.js:4-6 | a URL without the prefix is appended whole after the mirror and a slash |
| `Proxy.OrDefault` | api/proxy.js:9-10 | `value \|\| fallback`: a present non-empty value is kept; an absent or empty one gives the fallback |
| `Proxy.OutboundIdentity` | api/proxy.js:7-11 | User-Agent is the client's when present and non-empty, else `Mozilla/5.0`; Referer is the client's, else the mirror; neither is ever empty |
| `Proxy.IsOk` | api/proxy.js:14 | definition of `upstream.ok`: a status from 200 to 299 |
| `Proxy.ErrorEnvelope` | api/proxy.js:146-148 | definition of the `catch` reply: status 500, no headers set by the handler, and `{error: "Proxy failed", details: message}` |
| `Proxy.Fails` | api/proxy.js:6-17 | definition of the three throw points: a rejected fetch (line 6), a non-2xx status (line 14), a failed body read (line 17) |
| `Proxy.FailureIsJsonError` | api/proxy.js:146-148 | status 500 and a JSON body occur exactly when the fetch rejects, the status is not 2xx or the body cannot be read; then the headers are empty and `error` is `Proxy failed` |
| `Proxy.UpstreamStatusReported` | api/proxy.js:14 | a non-2xx reply yields details `Upstream ` followed by digits that read back as the upstream status |
| `Proxy.FailureMessageReported` | api/proxy.js:146-148 | a rejected fetch or failed body read is reported with its own message |
| `Decimal.Decimal` | api/proxy.js:14 | the rendering of a status is a non-empty string of digits without a leading zero |
| `Decimal.DecimalRoundTrip` | api/proxy.js:14 | reading the rendered digits back gives the number |
| `Decimal.DecimalInjective` | api/proxy.js:14 | different statuses give different messages |
| `Proxy.IsHtml` | api/proxy.js:20 | definition of the branch test: `includes("text/html")`, case-sensitive |
| `Proxy.PassthroughEnvelope` | api/proxy.js:21-24 | definition of the pass-through reply: upstream status and bytes, CORS `*` and the upstream content type |
| `Proxy.NonHtmlPassesThrough` | api/proxy.js:16-25 | a non-HTML reply (absent content type read as empty) goes out byte for byte with the upstream status and content type and exactly the two headers CORS `*` and content type |
| `Proxy.ExactlyOneReply` | api/proxy.js:14-25 | every exchange gives exactly one of the error, pass-through and HTML replies, decided only by failure and the content-type test |
| `Proxy.RewrittenPage` | api/proxy.js:27-136 | definition of the HTML rewrite: the decoded body, sanitised by the six passes, with the guard inserted (see `Proxy.HtmlIsRewritten`) |
| `Proxy.HtmlEnvelope` | api/proxy.js:140-144 | definition of the HTML reply: status 200 with the policy, CORS and HTML content-type headers |
| `Proxy.HtmlIsRewritten` | api/proxy.js:140-144 | an HTML reply has status 200, exactly the policy, CORS and HTML content-type headers, and the sanitised page with the guard, at most the guard longer than the decoded body |
| `Proxy.InsertGuardLength` | api/proxy.js:131-136 | with a head tag or a `</body>` (any case) the page grows by exactly the guard's length; with neither it comes back unchanged |
| `Proxy.Handler` | api/proxy.js:2-150 | the step-by-step handler, with its six reassignments of `html`, answers what `Respond` specifies |
| `Guard.HeadTagAt` | api/proxy.js:132 | `<head[^>]*>` at p ends just after the first `>` following `<head` (any case); no match exactly when there is no `<head` or no later `>` |
| `Guard.HasHeadTag` | api/proxy.js:132 | the `test` is true exactly when the tag matches somewhere |
| `Guard.AfterHeadTag` | api/proxy.js:133 | the guard is inserted right after the leftmost head tag; the page is unchanged when there is none |
| `Guard.BeforeBodyClose` | api/proxy.js:135 | the guard plus a lower-case `</body>` replaces the leftmost `</body>` in any case; the page is unchanged when there is none |
| `Guard.InsertGuard` | api/proxy.js:131-136 | definition of the choice: after the head tag when `test` succeeds, else before `</body>` (see the three lemmas below and `Proxy.InsertGuardLength`) |
| `Guard.GuardFollowsHeadTag` | api/proxy.js:132-133 | with a head tag, the page is its text up to the end of the first tag, the guard once, then the rest unchanged |
| `Guard.GuardPrecedesBodyClose` | api/proxy.js:134-135 | with no head tag, the guard goes just before the first `</body>` and the rest is unchanged |
| `Guard.NoTargetNoGuard` | api/proxy.js:131-136 | with neither tag, the page is unchanged |
| `Scan.FindGtUnique` | api/proxy.js:132 | the first `>` at or after i is what `[^>]*>` stops at |
| `Scan.FindGtFree` | api/proxy.js:132 | no `>` lies between the start and what `FindGt` finds, or anywhere after the start when it finds nothing |
| `Scan.FindCiUnique` | api/proxy.js:135 | the leftmost occurrence of a literal, ignoring ASCII case, is what `FindCi` finds |
| `Sanitizer.ReplaceFrom` | api/proxy.js:30-58 | definition of a global `replace` from position p: the leftmost match is replaced and the scan resumes at its end; elsewhere a character is kept and the scan moves on by one |
| `Sanitizer.GlobalReplace` | api/proxy.js:30-58 | the left-to-right global replace loop computes `ReplaceFrom`: after a match the scan resumes at its end, otherwise the character is copied and the scan moves on by one |
| `Sanitizer.RuleAdvances` | api/proxy.js:30-58 | every rule's match ends strictly after where it starts and within the text |
| `Sanitizer.Pass` | api/proxy.js:30-58 | one `html = html.replace(rule, …)` computes the global replace of that rule |
| `Rules.MatchAt` | api/proxy.js:30-58 | each rule's match at p is non-empty and inside the text |
| `Rules.Replacement` | api/proxy.js:30-58 | a match is replaced by one space (rule 1), by nothing, or by itself (rule 5), so never by anything longer |
| `Sanitizer.ReplaceAll` | api/proxy.js:30-58 | definition of one whole `html.replace(rule, …)` call: the global replace with the rule's scanner and replacement (see `Sanitizer.PassNeverLengthens`) |
| `Sanitizer.Sanitized` | api/proxy.js:27-58 | definition of the six passes in their fixed order, each on the output of the one before (see `Sanitizer.SanitizedNeverLengthens`) |
| `Sanitizer.ReplaceNeverLengthens` | api/proxy.js:30-58 | a global replace whose replacements are no longer than their matches gives no longer text |
| `Sanitizer.PassNeverLengthens` | api/proxy.js:30-58 | no single pass lengthens the page |
| `Sanitizer.SanitizedNeverLengthens` | api/proxy.js:30-58 | the six passes together never lengthen the page |
| `Sanitizer.KeptMatchesLeaveTextUnchanged` | api/proxy.js:43-55 | a global replace whose every match is replaced by itself gives back the text |
| `Sanitizer.UnmatchedTextUnchanged` | api/proxy.js:30-58 | a pattern that matches nowhere leaves the text unchanged |
| `Rules.EventHandlerAt` | api/proxy.js:30 | a rule-1 match starts at whitespace, ends at a quote and spans at least ten characters |
| `RuleShapes.SpacedCharMatches` | api/proxy.js:30 | `\s*` then a given character matches greedily up to the first non-space, and only there |
| `RuleShapes.EventNamesExclusive` | api/proxy.js:30 | no two event names occur at the same place, so the alternation matches in at most one way |
| `RuleShapes.EventNameMatches` | api/proxy.js:30 | `\s(on(?:click\|…\|error))` matches `s[p..n]` exactly when it is a space, `on` and one event name in any case |
| `RuleShapes.OpenQuoteMatches` | api/proxy.js:30 | from i (just after the `=`), `\s*(['"])` settles on a quote at q exactly when only whitespace lies before it |
| `RuleShapes.ValueCloseMatches` | api/proxy.js:30 | the lazy `.*?\2` stops at c exactly when `s[c]` is the opening quote and no line terminator or earlier quote of that kind precedes it |
| `RuleShapes.EventHandlerMatchHasShape` | api/proxy.js:30 | every rule-1 match is a space, `on` and an event name, whitespace, `=`, whitespace, a quote, and a one-line value up to the first equal quote |
| `RuleShapes.ShapeIsEventHandlerMatch` | api/proxy.js:30 | whatever has that shape is the match the scanner reports |
| `Rules.AdIframeAt` | api/proxy.js:33 | a rule-2 match starts with `<iframe` in any case |
| `RuleShapes.AdIframeMatchHasShape` | api/proxy.js:33 | every rule-2 match is `<iframe`, a tag up to its first `>` holding a keyword anywhere, even inside a word, then the body up to the first `</iframe>` |
| `RuleShapes.ShapeIsAdIframeMatch` | api/proxy.js:33 | whatever has that shape is the match the scanner reports |
| `Rules.AdDivAt` | api/proxy.js:36 | a rule-3 match starts with `<div` in any case |
| `Rules.AdDivValueAt` | api/proxy.js:36 | the value part of a rule-3 match spans at least eleven characters |
| `Rules.TagLimitFree` | api/proxy.js:36 | no `>` lies between the start and the tag limit |
| `RuleShapes.AttrOpenQuoteMatches` | api/proxy.js:36 | `(class\|id)=['"]` matches at t exactly when `class=` or `id=` (any case) is followed by a quote |
| `RuleShapes.AdDivAttrMatchHasShape` | api/proxy.js:36 | every match from an attribute name has a quoted value holding a keyword before the first quote, then the tag up to the first `>`, then the body up to the first `</div>` |
| `RuleShapes.ShapeIsAdDivValueMatch` | api/proxy.js:36 | whatever has the value shape is the match from just after the opening quote |
| `RuleShapes.ShapeIsAdDivAttrMatch` | api/proxy.js:36 | whatever has the value shape after the attribute's quote is the match from the attribute name |
| `RuleShapes.AdDivMatchHasShape` | api/proxy.js:36 | every rule-3 match is `<div`, a run free of `>` up to the last attribute position that matches within the tag, then that attribute's match, which ends at the first `</div>` (not the balanced one) |
| `Rules.KeywordScriptAt` | api/proxy.js:39 | a rule-4 match starts with `<script` in any case |
| `RuleShapes.ScriptKeywordsExclusive` | api/proxy.js:39 | no two rule-4 keywords occur at the same place |
| `RuleShapes.KeywordThenCloseMatches` | api/proxy.js:39 | the keyword alternation then `[\s\S]*?<\/script>` ends at c exactly when a keyword is followed by its first `</script>` at c |
| `RuleShapes.KeywordScriptMatchHasShape` | api/proxy.js:39 | every rule-4 match is `<script`, a tag up to its first `>`, a lazy gap to the first position where a keyword and its close fit (possibly past a `</script>`), then that close |
| `RuleShapes.ShapeIsKeywordScriptMatch` | api/proxy.js:39 | whatever has that shape is the match the scanner reports |
| `Rules.Base64ScriptAt` | api/proxy.js:43 | a rule-5 match starts with `<script` and captures at least 80 base64-like characters |
| `RuleShapes.TokenThenCloseMatches` | api/proxy.js:43 | `([A-Za-z0-9+\/=]{80,})[\s\S]*?<\/script>` captures a maximal run of at least 80 characters and ends at the first `</script>` after it |
| `RuleShapes.Base64ScriptMatchHasShape` | api/proxy.js:43 | every rule-5 match is `<script\b`, a tag up to its first `>`, a gap to the first long token, and that token's close |
| `RuleShapes.ShapeIsBase64ScriptMatch` | api/proxy.js:43 | whatever has that shape is the match and capture the scanner reports |
| `Rules.ScriptVerdict` | api/proxy.js:43-55 | definition of the rule-5 callback over the opaque decoder (see `Sanitizer.ScriptVerdictRemovesOnlyMalicious`) |
| `Sanitizer.Malicious` | api/proxy.js:45-47 | definition of a malicious token: it decodes, and the decoded text contains one of the bad patterns, case-sensitively |
| `Sanitizer.ScriptVerdictRemovesOnlyMalicious` | api/proxy.js:44-54 | the callback returns `""` exactly when the token decodes to text with a bad pattern, and the whole match otherwise, decode failure included |
| `Sanitizer.BenignBase64ScriptsKept` | api/proxy.js:43-55 | when no rule-5 token decodes to a bad pattern, the pass leaves the page character for character |
| `Sanitizer.MaliciousBase64ScriptDropped` | api/proxy.js:43-55 | a rule-5 match with a malicious token is dropped whole, and the scan resumes after it |
| `Rules.EvalAtobAt` | api/proxy.js:58 | a rule-6 match starts with `eval` in any case and spans at least 52 characters |
| `RuleShapes.EvalParenMatches` | api/proxy.js:58 | `eval\s*\(` matches at p exactly when `eval` is followed by whitespace and `(` |
| `RuleShapes.AtobParenMatches` | api/proxy.js:58 | `\s*atob\s*\(` matches exactly when whitespace, `atob`, whitespace and `(` follow |
| `RuleShapes.QuotedTokenMatches` | api/proxy.js:58 | `(['"\`])([A-Za-z0-9+\/=]{40,})\1` matches exactly when a quote, at least 40 base64-like characters and the same quote follow |
| `RuleShapes.CloseParensMatches` | api/proxy.js:58 | `\s*\)\s*\)\s*;?` matches up to r, taking the semicolon when there is one |

## Left out

- The network is not modelled: `fetch`, reading the body with `arrayBuffer`, and the `req` and `res` objects. The upstream reply comes from the `Host.fetch` parameter, and the reply is an `Envelope` value.
- The logging call `console.error` is left out, as a side effect with no effect on the reply.
- The guard's text is the `Host.earlyGuard` parameter. What it does in the browser is left out: prototype overrides, the mutation observer, viewport geometry and styles.
- UTF-8 decoding of the body is the `Host.utf8` parameter. Base64 decoding followed by UTF-8 decoding in the rule-5 callback is the `Host.decode` parameter, which may fail. Their internals are lenient Node decoders and are not modelled.
- The content-type header that `res.json` sets on an error reply is framework behaviour and is not in the envelope.
- Guard.BeforeBodyClose: inserts the guard literally. A string replacement in `replace` expands `$&`, `` $` ``, `$'`, `$$` and `$n`; the handler's guard (api/proxy.js:61-129) contains no `$`, so this is exact for it but not for an arbitrary guard.
- Rules.EvalAtobAt: rule 6 is characterised piece by piece (`eval\s*\(`, `\s*atob\s*\(`, the quoted token, the closing parentheses), each piece both ways; there is no lemma for the whole pattern, because one is too expensive for the solver.
- Strings are sequences of characters, with no UTF-16 surrogate pairs. Every class the patterns use treats the two halves of a pair alike, so only offsets could differ.
- Idempotence (sanitising twice changes nothing more) is not proved. It does not hold of raw-text rewriting: removing a match can join its neighbours into a new match.
- RuleShapes.AdDivMatchHasShape: only one direction is proved for rule 3. Every match has the shape, but the converse — that the scanner reports every shape — is not proved, because its proof is too expensive for the solver.
- Rules.TagLimit, Scan.FindGt, Rules.FindQuote: their own `ensures` give only the bounds and the character found. The claim that nothing earlier qualifies is in the separate lemmas `Rules.TagLimitFree`, `Scan.FindGtFree` and `Rules.FindQuoteFree`.
