/**
 * Insertion of the early guard script into a sanitised page: right after the
 * first tag that `<head[^>]*>` matches (case ignored) when there is one,
 * otherwise in front of the first `</body>` (case ignored), otherwise
 * nowhere.  The guard's own text is a parameter.
 */
module Guard {
  import opened Scan

  /** `<head[^>]*>` matched at `p`: the end of the match.  It also matches `<header ...>`. */
  function HeadTagAt(s: string, p: nat): (r: Option<nat>)
    ensures r.Some? ==> p + 6 <= r.value <= |s| && OccursCiAt(s, p, "<head") && s[r.value - 1] == '>'
    ensures r.Some? ==> forall k :: p + 5 <= k < r.value - 1 ==> s[k] != '>'
    ensures r.None? ==> !OccursCiAt(s, p, "<head") || forall k :: p + 5 <= k < |s| ==> s[k] != '>'
  {
    if !OccursCiAt(s, p, "<head") then None
    else
      FindGtFree(s, p + 5);
      match FindGt(s, p + 5)
      case None => None
      case Some(g) => Some(g + 1)
  }

  /** The leftmost position where `<head[^>]*>` matches. */
  function FirstHeadTag(s: string): (r: Option<nat>)
    ensures r.Some? ==> r.value < |s| && HeadTagAt(s, r.value).Some?
    ensures r.Some? ==> forall k :: 0 <= k < r.value ==> HeadTagAt(s, k).None?
    ensures r.None? ==> forall k :: 0 <= k < |s| ==> HeadTagAt(s, k).None?
  {
    var P := (k: nat) => HeadTagAt(s, k).Some?;
    assert forall k: nat :: P(k) == HeadTagAt(s, k).Some?;
    First(0, |s|, P)
  }

  /** `/<head[^>]*>/i.test(html)`. */
  function HasHeadTag(html: string): (b: bool)
    ensures b <==> exists p :: 0 <= p < |html| && HeadTagAt(html, p).Some?
  {
    FirstHeadTag(html).Some?
  }

  /** `html.replace(/<head[^>]*>/i, match => match + guard)`: the guard goes right after the leftmost head tag. */
  function AfterHeadTag(html: string, guard: string): (r: string)
    ensures (forall p :: 0 <= p < |html| ==> HeadTagAt(html, p).None?) ==> r == html
    ensures forall p :: 0 <= p < |html| && HeadTagAt(html, p).Some? &&
                        (forall k :: 0 <= k < p ==> HeadTagAt(html, k).None?) ==>
              r == html[..HeadTagAt(html, p).value] + guard + html[HeadTagAt(html, p).value..]
  {
    match FirstHeadTag(html)
    case None => html
    case Some(p) =>
      var e := HeadTagAt(html, p).value;
      html[..e] + guard + html[e..]
  }

  /**
   * `html.replace(/<\/body>/i, guard + "</body>")`: the guard goes in front of
   * the leftmost closing body tag, which is written in lower case.  The
   * replacement is a string, in which `replace` would expand `$&`, `` $` ``,
   * `$'`, `$$` and `$n`; the guard is inserted literally, which is exact for
   * a guard without `$`, as the handler's guard is.
   */
  function BeforeBodyClose(html: string, guard: string): (r: string)
    ensures (forall i :: 0 <= i <= |html| ==> !OccursCiAt(html, i, "</body>")) ==> r == html
    ensures forall i :: 0 <= i <= |html| && OccursCiAt(html, i, "</body>") &&
                        (forall k :: 0 <= k < i ==> !OccursCiAt(html, k, "</body>")) ==>
              r == html[..i] + guard + "</body>" + html[i + 7..]
  {
    match FindCi(html, "</body>", 0)
    case None => html
    case Some(i) => html[..i] + guard + "</body>" + html[i + 7..]
  }

  /** Where the guard ends up: after the head tag if the page has one, else before `</body>`. */
  function InsertGuard(html: string, guard: string): string {
    if HasHeadTag(html) then AfterHeadTag(html, guard) else BeforeBodyClose(html, guard)
  }

  /**
   * With a head tag present the guard sits right after the leftmost one:
   * the text up to the end of the tag is untouched, the guard follows, and
   * the rest of the page follows the guard unchanged.
   */
  lemma GuardFollowsHeadTag(html: string, guard: string)
    requires HasHeadTag(html)
    ensures var p := FirstHeadTag(html).value;
            var e := HeadTagAt(html, p).value;
            var r := InsertGuard(html, guard);
            |r| == |html| + |guard| && r[..e] == html[..e] &&
            r[e..e + |guard|] == guard && r[e + |guard|..] == html[e..]
  {
    var p := FirstHeadTag(html).value;
    var e := HeadTagAt(html, p).value;
    var r := InsertGuard(html, guard);
    assert r == html[..e] + guard + html[e..];
    assert r[..e] == html[..e];
    assert r[e..e + |guard|] == guard;
  }

  /**
   * With no head tag but a closing body tag, the guard sits right in front
   * of the leftmost `</body>`, which is kept (in lower case); everything
   * before and after is untouched.
   */
  lemma GuardPrecedesBodyClose(html: string, guard: string, i: nat)
    requires !HasHeadTag(html)
    requires OccursCiAt(html, i, "</body>")
    requires forall k :: 0 <= k < i ==> !OccursCiAt(html, k, "</body>")
    ensures var r := InsertGuard(html, guard);
            |r| == |html| + |guard| && r[..i] == html[..i] &&
            r[i..i + |guard|] == guard && OccursAt(r, i + |guard|, "</body>") &&
            r[i + |guard| + 7..] == html[i + 7..]
  {
    var r := InsertGuard(html, guard);
    assert r == html[..i] + guard + "</body>" + html[i + 7..];
    assert r[..i] == html[..i];
    assert r[i..i + |guard|] == guard;
    assert r[i + |guard|..i + |guard| + 7] == "</body>";
    assert r[i + |guard| + 7..] == html[i + 7..];
  }

  /** A page with neither a head tag nor a closing body tag gets no guard at all. */
  lemma NoTargetNoGuard(html: string, guard: string)
    requires !HasHeadTag(html)
    requires forall i :: 0 <= i <= |html| ==> !OccursCiAt(html, i, "</body>")
    ensures InsertGuard(html, guard) == html
  {
  }
}
