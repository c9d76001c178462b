/**
 * Reading Prehraj.to search results out of a rendered search page
 * (prehraj.go:72-169): which anchors are looked at, how an anchor's text is
 * split into title, size and duration, and how its link is made absolute.
 * The browser and the HTML parser are not modelled; an anchor is given by its
 * text, its `href` and its `title` attribute.
 */
module SearchPage {
  import opened Wrappers
  import opened Text

  /** One search hit. */
  datatype PrehrajResult = PrehrajResult(title: string, duration: string, size: string, url: string)

  /** What a trimmed line of anchor text is taken for. */
  datatype LineKind = Blank | Duration | Size | Title

  /** A line with `:` and under ten bytes is a duration; else one naming MB, GB or kB is a size; any other non-empty line is a title. */
  function Classify(line: string): LineKind {
    if line == "" then Blank
    else if Contains(line, ":") && Utf8Len(line) < 10 then Duration
    else if Contains(line, "MB") || Contains(line, "GB") || Contains(line, "kB") then Size
    else Title
  }

  /** The position of the last entry satisfying `p`, or -1 when there is none. */
  function LastWhere<T>(xs: seq<T>, p: T -> bool): (k: int)
    ensures -1 <= k < |xs|
    ensures k >= 0 ==> p(xs[k])
    ensures forall j :: k < j < |xs| ==> !p(xs[j])
    decreases |xs|
  {
    if xs == [] then -1
    else if p(xs[|xs| - 1]) then |xs| - 1
    else LastWhere(xs[..|xs| - 1], p)
  }

  lemma LastWhereSnoc<T>(xs: seq<T>, i: nat, p: T -> bool)
    requires i < |xs|
    ensures LastWhere(xs[..i + 1], p) == if p(xs[i]) then i else LastWhere(xs[..i], p)
  {
    assert xs[..i + 1][..i] == xs[..i];
    assert xs[..i + 1][i] == xs[i];
  }

  /** Every line with its white space trimmed. */
  function TrimLines(lines: seq<string>): (ts: seq<string>)
    ensures |ts| == |lines|
    decreases |lines|
  {
    if lines == [] then [] else TrimLines(lines[..|lines| - 1]) + [TrimSpace(lines[|lines| - 1])]
  }

  lemma {:induction false} TrimLinesAt(lines: seq<string>, j: nat)
    requires j < |lines|
    ensures TrimLines(lines)[j] == TrimSpace(lines[j])
    decreases |lines|
  {
    var n := |lines| - 1;
    if j < n {
      TrimLinesAt(lines[..n], j);
    }
  }

  /** The test that a trimmed line is of the given kind. */
  function OfKind(kind: LineKind): string -> bool {
    line => Classify(line) == kind
  }

  /** The last trimmed line of the given kind, or "" when there is none: what the line loop of `parseLink` leaves in its variable for that kind. */
  function LastOfKind(lines: seq<string>, kind: LineKind): string {
    var ts := TrimLines(lines);
    var k := LastWhere(ts, OfKind(kind));
    if k < 0 then "" else ts[k]
  }

  /**
   * For a kind other than `Blank`: "" means that no line has the kind, and
   * otherwise the result is the last line of that kind.
   */
  lemma LastOfKindIsLast(lines: seq<string>, kind: LineKind)
    requires kind != Blank
    ensures LastOfKind(lines, kind) == "" <==> forall j :: 0 <= j < |lines| ==> Classify(TrimSpace(lines[j])) != kind
    ensures LastOfKind(lines, kind) != "" ==> exists k :: (0 <= k < |lines| &&
      LastOfKind(lines, kind) == TrimSpace(lines[k]) && Classify(TrimSpace(lines[k])) == kind &&
      forall j :: k < j < |lines| ==> Classify(TrimSpace(lines[j])) != kind)
  {
    var ts := TrimLines(lines);
    var k := LastWhere(ts, OfKind(kind));
    forall j | 0 <= j < |lines| ensures OfKind(kind)(ts[j]) == (Classify(TrimSpace(lines[j])) == kind) {
      TrimLinesAt(lines, j);
    }
    if k >= 0 {
      assert Classify(ts[k]) != Blank;
      TrimLinesAt(lines, k);
    }
  }

  /** One more line: it wins when it has the kind, otherwise the earlier lines decide. */
  lemma LastOfKindSnoc(lines: seq<string>, i: nat, kind: LineKind)
    requires i < |lines|
    ensures LastOfKind(lines[..i + 1], kind) ==
      if Classify(TrimSpace(lines[i])) == kind then TrimSpace(lines[i]) else LastOfKind(lines[..i], kind)
  {
    var cur := lines[..i + 1];
    assert cur[..i] == lines[..i];
    assert cur[i] == lines[i];
    var ts := TrimLines(lines[..i]);
    var ts' := TrimLines(cur);
    assert ts' == ts + [TrimSpace(lines[i])];
    LastWhereSnoc(ts', i, OfKind(kind));
    assert ts'[..i] == ts;
    var k := LastWhere(ts, OfKind(kind));
    if k >= 0 {
      assert ts'[k] == ts[k];
    }
  }

  /** A link that does not start with `http` is taken relative to `https://prehraj.to`. */
  function AbsoluteUrl(href: string): (u: string)
    ensures HasPrefix(u, "http")
    ensures HasPrefix(href, "http") ==> u == href
    ensures !HasPrefix(href, "http") ==> u == "https://prehraj.to" + href
  {
    if HasPrefix(href, "http") then href
    else
      assert ("https://prehraj.to" + href)[..4] == "http";
      "https://prehraj.to" + href
  }

  /** The title a link ends up with: the last title line, or, when only size or duration lines were found, the `title` attribute or else the whole trimmed text. */
  function FinalTitle(fullText: string, titleAttr: Option<string>): string {
    var lines := Split(fullText, "\n");
    var title := LastOfKind(lines, Title);
    if title == "" && (LastOfKind(lines, Size) != "" || LastOfKind(lines, Duration) != "") then
      match titleAttr
      case Some(v) => v
      case None => TrimSpace(fullText)
    else title
  }

  /** The hit one anchor yields, if any. */
  function LinkResult(fullText: string, titleAttr: Option<string>, href: string): Option<PrehrajResult> {
    var lines := Split(fullText, "\n");
    var title := FinalTitle(fullText, titleAttr);
    if title == "" then None
    else Some(PrehrajResult(title, LastOfKind(lines, Duration), LastOfKind(lines, Size), AbsoluteUrl(href)))
  }

  /**
   * An anchor yields a hit exactly when its final title is non-empty; the hit's
   * link is absolute; a found title line is used as is, and without one the
   * fallback applies only when a size or duration line was found.
   */
  lemma LinkResultShape(fullText: string, titleAttr: Option<string>, href: string)
    ensures LinkResult(fullText, titleAttr, href).Some? <==> FinalTitle(fullText, titleAttr) != ""
    ensures LinkResult(fullText, titleAttr, href).Some? ==> HasPrefix(LinkResult(fullText, titleAttr, href).value.url, "http")
    ensures var lines := Split(fullText, "\n");
      LastOfKind(lines, Title) != "" ==> FinalTitle(fullText, titleAttr) == LastOfKind(lines, Title)
    ensures var lines := Split(fullText, "\n");
      LastOfKind(lines, Title) == "" && LastOfKind(lines, Size) == "" && LastOfKind(lines, Duration) == "" ==>
        LinkResult(fullText, titleAttr, href) == None
  {
  }

  /** The line loop of `parseLink`: each trimmed non-empty line overwrites the variable of its kind. */
  method ScanLines(lines: seq<string>) returns (duration: string, size: string, cleanedTitle: string)
    ensures duration == LastOfKind(lines, Duration)
    ensures size == LastOfKind(lines, Size)
    ensures cleanedTitle == LastOfKind(lines, Title)
  {
    duration, size, cleanedTitle := "", "", "";
    for i := 0 to |lines|
      invariant duration == LastOfKind(lines[..i], Duration)
      invariant size == LastOfKind(lines[..i], Size)
      invariant cleanedTitle == LastOfKind(lines[..i], Title)
    {
      LastOfKindSnoc(lines, i, Duration);
      LastOfKindSnoc(lines, i, Size);
      LastOfKindSnoc(lines, i, Title);
      var line := TrimSpace(lines[i]);
      if line == "" {
        continue;
      }
      if Contains(line, ":") && Utf8Len(line) < 10 {
        duration := line;
      } else if Contains(line, "MB") || Contains(line, "GB") || Contains(line, "kB") {
        size := line;
      } else {
        cleanedTitle := line;
      }
    }
    assert lines[..|lines|] == lines;
  }

  /** `parseLink` (prehraj.go:116-169): the line loop, the title fallback, then one appended hit when the title is non-empty. */
  method ParseLink(fullText: string, titleAttr: Option<string>, href: string, results: seq<PrehrajResult>)
    returns (out: seq<PrehrajResult>)
    ensures LinkResult(fullText, titleAttr, href).None? ==> out == results
    ensures LinkResult(fullText, titleAttr, href).Some? ==> out == results + [LinkResult(fullText, titleAttr, href).value]
  {
    var lines := Split(fullText, "\n");
    var duration, size, cleanedTitle := ScanLines(lines);

    if cleanedTitle == "" {
      if size != "" || duration != "" {
        if titleAttr.Some? {
          cleanedTitle := titleAttr.value;
        } else {
          cleanedTitle := TrimSpace(fullText);
        }
      }
    }
    assert cleanedTitle == FinalTitle(fullText, titleAttr);

    out := results;
    if cleanedTitle != "" {
      var link := href;
      if !HasPrefix(link, "http") {
        link := "https://prehraj.to" + link;
      }
      out := out + [PrehrajResult(cleanedTitle, duration, size, link)];
    }
  }

  // ------------------------------------------------------------------ anchors of a search page

  /** An `<a>` element of the page: whether it has class `video--link`, its `href` (absent or not), its text and its `title` attribute. */
  datatype Anchor = Anchor(isVideoLink: bool, href: Option<string>, text: string, titleAttr: Option<string>)

  /** The generic fallback's test: not a search, profile or pricing link, and text naming MB or GB and holding a `:`. */
  predicate FallbackCandidate(href: string, text: string) {
    && !(HasPrefix(href, "/hledej") || HasPrefix(href, "/profil") || HasPrefix(href, "/cenik"))
    && (Contains(text, "MB") || Contains(text, "GB"))
    && Contains(text, ":")
  }

  /** Whether a pass looks at an anchor: a `video--link` anchor with an `href`, or in the fallback pass any anchor with an `href` that passes the test. */
  predicate Considered(a: Anchor, fallback: bool) {
    a.href.Some? && (if fallback then FallbackCandidate(a.href.value, a.text) else a.isVideoLink)
  }

  /** The hits one pass over the anchors collects, in page order. */
  function PassResults(anchors: seq<Anchor>, fallback: bool): seq<PrehrajResult>
    decreases |anchors|
  {
    if anchors == [] then []
    else
      var prev := PassResults(anchors[..|anchors| - 1], fallback);
      var a := anchors[|anchors| - 1];
      prev + PassStep(a, fallback)
  }

  /** The hits of a page: the `video--link` pass, or the fallback pass when that found nothing. */
  function PageResults(anchors: seq<Anchor>): seq<PrehrajResult> {
    var primary := PassResults(anchors, false);
    if primary == [] then PassResults(anchors, true) else primary
  }

  /** What one more anchor adds to a pass. */
  function PassStep(a: Anchor, fallback: bool): seq<PrehrajResult> {
    if Considered(a, fallback) && LinkResult(a.text, a.titleAttr, a.href.value).Some? then
      [LinkResult(a.text, a.titleAttr, a.href.value).value]
    else []
  }

  lemma PassResultsSnoc(anchors: seq<Anchor>, i: nat, fallback: bool)
    requires i < |anchors|
    ensures PassResults(anchors[..i + 1], fallback) == PassResults(anchors[..i], fallback) + PassStep(anchors[i], fallback)
  {
    assert anchors[..i + 1][..i] == anchors[..i];
    assert anchors[..i + 1][i] == anchors[i];
  }

  /** Every hit of a pass comes from an anchor the pass considers. */
  lemma {:induction false} PassResultsFromAnchors(anchors: seq<Anchor>, fallback: bool)
    ensures forall r :: r in PassResults(anchors, fallback) ==>
      exists a :: a in anchors && Considered(a, fallback) && LinkResult(a.text, a.titleAttr, a.href.value) == Some(r)
    decreases |anchors|
  {
    if anchors != [] {
      var n := |anchors| - 1;
      PassResultsFromAnchors(anchors[..n], fallback);
      PassResultsSnoc(anchors, n, fallback);
      assert anchors[..n + 1] == anchors;
      forall r | r in PassResults(anchors, fallback)
        ensures exists a :: a in anchors && Considered(a, fallback) && LinkResult(a.text, a.titleAttr, a.href.value) == Some(r)
      {
        if r in PassResults(anchors[..n], fallback) {
          var a :| a in anchors[..n] && Considered(a, fallback) && LinkResult(a.text, a.titleAttr, a.href.value) == Some(r);
          assert a in anchors;
        } else {
          assert r in PassStep(anchors[n], fallback);
          assert anchors[n] in anchors;
        }
      }
    }
  }

  /** Every hit of a pass has a non-empty title and an absolute link. */
  lemma {:induction false} PassResultsWellFormed(anchors: seq<Anchor>, fallback: bool)
    ensures forall k :: 0 <= k < |PassResults(anchors, fallback)| ==>
      PassResults(anchors, fallback)[k].title != "" && HasPrefix(PassResults(anchors, fallback)[k].url, "http")
    decreases |anchors|
  {
    if anchors != [] {
      var n := |anchors| - 1;
      PassResultsWellFormed(anchors[..n], fallback);
      PassResultsSnoc(anchors, n, fallback);
      assert anchors[..n + 1] == anchors;
      var prev := PassResults(anchors[..n], fallback);
      var cur := PassResults(anchors, fallback);
      forall k | 0 <= k < |cur| ensures cur[k].title != "" && HasPrefix(cur[k].url, "http") {
        if k < |prev| {
          assert cur[k] == prev[k];
        } else {
          var a := anchors[n];
          LinkResultShape(a.text, a.titleAttr, a.href.value);
        }
      }
    }
  }

  /** The callback a pass runs on one anchor: skip it unless the pass considers it, else hand it to `parseLink`. */
  method VisitAnchor(a: Anchor, fallback: bool, results: seq<PrehrajResult>) returns (out: seq<PrehrajResult>)
    ensures out == results + PassStep(a, fallback)
  {
    out := results;
    if a.href.None? {
      return;
    }
    var href := a.href.value;
    if fallback {
      if HasPrefix(href, "/hledej") || HasPrefix(href, "/profil") || HasPrefix(href, "/cenik") {
        return;
      }
      if (Contains(a.text, "MB") || Contains(a.text, "GB")) && Contains(a.text, ":") {
        out := ParseLink(a.text, a.titleAttr, href, out);
      }
    } else if a.isVideoLink {
      out := ParseLink(a.text, a.titleAttr, href, out);
    }
  }

  /** Visiting anchor `i` extends what the pass has collected so far by that anchor's step. */
  lemma CollectStep(anchors: seq<Anchor>, i: nat, fallback: bool, results: seq<PrehrajResult>, before: seq<PrehrajResult>, after: seq<PrehrajResult>)
    requires i < |anchors|
    requires before == results + PassResults(anchors[..i], fallback)
    requires after == before + PassStep(anchors[i], fallback)
    ensures after == results + PassResults(anchors[..i + 1], fallback)
  {
    PassResultsSnoc(anchors, i, fallback);
  }

  /** One pass of `searchPrehraj` over the anchors, in page order. */
  method CollectPass(anchors: seq<Anchor>, fallback: bool, results: seq<PrehrajResult>) returns (out: seq<PrehrajResult>)
    ensures out == results + PassResults(anchors, fallback)
  {
    out := results;
    for i := 0 to |anchors|
      invariant out == results + PassResults(anchors[..i], fallback)
    {
      ghost var before := out;
      out := VisitAnchor(anchors[i], fallback, out);
      CollectStep(anchors, i, fallback, results, before, out);
    }
    assert anchors[..|anchors|] == anchors;
  }

  /** The result collection of `searchPrehraj`: the `a.video--link` pass, then the generic pass if it found nothing. */
  method SearchResults(anchors: seq<Anchor>) returns (results: seq<PrehrajResult>)
    ensures results == PageResults(anchors)
    ensures forall k :: 0 <= k < |results| ==> results[k].title != "" && HasPrefix(results[k].url, "http")
  {
    results := CollectPass(anchors, false, []);
    if |results| == 0 {
      results := CollectPass(anchors, true, results);
    }
    PassResultsWellFormed(anchors, false);
    PassResultsWellFormed(anchors, true);
  }
}
