/**
 * `extractPrehrajStreams` (prehraj.go:170-288) once the video page is in hand:
 * the `var sources = [...]` array is cut out of the page, split at `{`, and
 * each piece with a `file:` entry becomes a stream named after its `label:`
 * and the resolution the page lists under "Rozlišení:". The HTTP request is
 * not modelled: the page text and its `<li>` items are parameters.
 */
module Extract {
  import opened Wrappers
  import opened Text
  import opened Streams

  // ------------------------------------------------------------------ the sources array

  /** The text `var sources = (\[[\s\S]*?\]);` starts with. */
  const SourcesOpen: string := "var sources = ["

  /**
   * The capture of `var sources = (\[[\s\S]*?\]);`: from the `[` after the
   * first `var sources = ` up to the first `];` after it, the `]` included.
   */
  function SourcesJson(body: string): (r: Option<string>)
    ensures r.Some? ==> |r.value| >= 2 && r.value[0] == '[' && r.value[|r.value| - 1] == ']'
  {
    var i := IndexOf(body, SourcesOpen);
    if i < 0 then None
    else
      var j := IndexFrom(body, "];", i + |SourcesOpen|);
      if j < 0 then None
      else
        assert body[i..i + |SourcesOpen|][|SourcesOpen| - 1] == body[i + |SourcesOpen| - 1];
        assert body[j..j + 2][0] == body[j];
        Some(body[i + |SourcesOpen| - 1..j + 1])
  }

  /** The first `var sources = [` of `pre + "var sources = [" + rest` is the one after `pre` when `pre` has none. */
  lemma SourcesOpenAfter(pre: string, rest: string)
    requires !Contains(pre, SourcesOpen)
    ensures IndexOf(pre + SourcesOpen + rest, SourcesOpen) == |pre|
  {
    var body := pre + SourcesOpen + rest;
    var i := |pre|;
    var o := |SourcesOpen|;
    assert body[i..i + o] == SourcesOpen;
    assert IsAt(body, SourcesOpen, i);
    forall p | 0 <= p < i ensures !IsAt(body, SourcesOpen, p) {
      if p + o <= i {
        assert body[p..p + o] == pre[p..p + o];
        if IsAt(pre, SourcesOpen, p) {
          ContainsAt(pre, SourcesOpen, p);
        }
      } else {
        assert body[i] == 'v';
        assert SourcesOpen[i - p] != 'v';
        if p + o <= |body| {
          assert body[p..p + o][i - p] == body[i];
        }
      }
    }
  }

  /** The first `];` from the start of an array without `]` inside is the one that closes it. */
  lemma ArrayClose(before: string, inner: string, rest: string)
    requires ']' !in inner
    ensures IndexFrom(before + inner + "];" + rest, "];", |before|) == |before| + |inner|
  {
    var body := before + inner + "];" + rest;
    var j := |before| + |inner|;
    assert body[j..j + 2] == "];";
    assert IsAt(body, "];", j);
    forall m | |before| <= m < j ensures !IsAt(body, "];", m) {
      assert body[m] == inner[m - |before|];
      assert body[m] != ']';
      assert body[m..m + 2][0] == body[m];
    }
  }

  /**
   * The capture is the shortest one: a page that holds `var sources = ` then
   * an array without `]` inside, then `;`, yields that array, whatever
   * precedes it as long as that has no `var sources = [` of its own.
   */
  lemma SourcesJsonOf(pre: string, inner: string, post: string)
    requires !Contains(pre, SourcesOpen)
    requires ']' !in inner
    ensures SourcesJson(pre + SourcesOpen + inner + "];" + post) == Some("[" + inner + "]")
  {
    var head := pre + SourcesOpen;
    var body := head + inner + "];" + post;
    var i := |pre|;
    var j := |head| + |inner|;
    SourcesOpenFirst(pre, inner, post);
    ArrayClose(head, inner, post);
    SourcesJsonAt(body, i, j);
    assert head[|head| - 1] == '[';
    ArraySlice(head, inner, post);
  }

  /** `SourcesOpenAfter` for a page laid out as `pre`, the opening text, the array's inside, `];` and the rest. */
  lemma SourcesOpenFirst(pre: string, inner: string, post: string)
    requires !Contains(pre, SourcesOpen)
    ensures IndexOf(pre + SourcesOpen + inner + "];" + post, SourcesOpen) == |pre|
  {
    var head := pre + SourcesOpen;
    var r1 := inner + "];";
    assert head + inner + "];" == head + r1;
    assert head + inner + "];" + post == head + (r1 + post);
    SourcesOpenAfter(pre, r1 + post);
  }

  /** The array cut out of `head + inner + "];" + post`, when `head` ends in `[`. */
  lemma ArraySlice(head: string, inner: string, post: string)
    requires head != [] && head[|head| - 1] == '['
    ensures (head + inner + "];" + post)[|head| - 1..|head| + |inner| + 1] == "[" + inner + "]"
  {
    var body := head + inner + "];" + post;
    var x := body[|head| - 1..|head| + |inner| + 1];
    assert x[0] == '[';
    forall m | 1 <= m <= |inner| ensures x[m] == inner[m - 1] {
      assert x[m] == body[|head| + m - 1];
    }
    assert x[|inner| + 1] == ']';
  }

  /** `SourcesJson` in terms of where the opening text and the closing `];` are found. */
  lemma SourcesJsonAt(body: string, i: int, j: int)
    requires IndexOf(body, SourcesOpen) == i && i >= 0
    requires IndexFrom(body, "];", i + |SourcesOpen|) == j && j >= 0
    ensures SourcesJson(body) == Some(body[i + |SourcesOpen| - 1..j + 1])
  {
  }

  // ------------------------------------------------------------------ `file:` and `label:` entries

  predicate IsQuote(c: char) {
    c == '"' || c == '\''
  }

  /** The first quote at or after `j`, or `|s|`. */
  function QuoteFrom(s: string, j: nat): (k: nat)
    requires j <= |s|
    ensures j <= k <= |s|
    ensures forall m :: j <= m < k ==> !IsQuote(s[m])
    ensures k < |s| ==> IsQuote(s[k])
    decreases |s| - j
  {
    if j < |s| && !IsQuote(s[j]) then QuoteFrom(s, j + 1) else j
  }

  /**
   * The capture of `<key>\s*["']([^"']+)["']` for a match starting at `i`, if
   * one starts there: after the spaces a quote, then one or more non-quotes up
   * to a quote (either kind, not necessarily the same).
   */
  function FieldAt(s: string, key: string, i: nat): Option<string>
    requires IsAt(s, key, i)
  {
    var j := SkipRegexSpace(s, i + |key|);
    if j < |s| && IsQuote(s[j]) then
      var k := QuoteFrom(s, j + 1);
      if j + 1 < k < |s| then Some(s[j + 1..k]) else None
    else None
  }

  /** The leftmost match at or after `i`. */
  function FieldFrom(s: string, key: string, i: nat): Option<string>
    requires i <= |s|
    decreases |s| - i
  {
    if IsAt(s, key, i) && FieldAt(s, key, i).Some? then FieldAt(s, key, i)
    else if i == |s| then None
    else FieldFrom(s, key, i + 1)
  }

  /** `FindStringSubmatch` of `<key>\s*["']([^"']+)["']`: the first capture, if any. */
  function FieldValue(s: string, key: string): Option<string> {
    FieldFrom(s, key, 0)
  }

  /** A capture is non-empty and quote-free, and the key occurs in the text. */
  lemma {:induction false} FieldFromShape(s: string, key: string, i: nat)
    requires i <= |s|
    ensures FieldFrom(s, key, i).Some? ==>
      FieldFrom(s, key, i).value != [] && (forall c :: c in FieldFrom(s, key, i).value ==> !IsQuote(c)) && Contains(s, key)
    decreases |s| - i
  {
    if IsAt(s, key, i) && FieldAt(s, key, i).Some? {
      ContainsAt(s, key, i);
      var j := SkipRegexSpace(s, i + |key|);
      var k := QuoteFrom(s, j + 1);
      forall c | c in s[j + 1..k] ensures !IsQuote(c) {
        var m :| 0 <= m < k - j - 1 && s[j + 1..k][m] == c;
        assert s[j + 1 + m] == c;
      }
    } else if i < |s| {
      FieldFromShape(s, key, i + 1);
    }
  }

  /** Positions where the key does not occur are passed over. */
  lemma {:induction false} FieldFromSkip(s: string, key: string, i: nat, p: nat)
    requires i <= p <= |s|
    requires forall m :: i <= m < p ==> !IsAt(s, key, m)
    ensures FieldFrom(s, key, i) == FieldFrom(s, key, p)
    decreases p - i
  {
    if i < p {
      FieldFromSkip(s, key, i + 1, p);
    }
  }

  /** A match at `i` whose spaces end at `j` in a quote, and whose value runs up to a quote at `k`, captures that value. */
  lemma FieldAtValue(s: string, key: string, i: nat, j: nat, k: nat)
    requires IsAt(s, key, i) && i + |key| <= j && j + 1 < k < |s|
    requires forall m :: i + |key| <= m < j ==> IsRegexSpace(s[m])
    requires IsQuote(s[j]) && IsQuote(s[k])
    requires forall m :: j + 1 <= m < k ==> !IsQuote(s[m])
    ensures FieldFrom(s, key, i) == Some(s[j + 1..k])
  {
    SkipRegexSpaceStops(s, i + |key|, j);
    QuoteFromStops(s, j + 1, k);
  }

  /** No occurrence of a key that starts with a non-space begins inside leading white space. */
  lemma KeyNotInSpaces(pre: string, t: string, key: string)
    requires key != [] && !IsRegexSpace(key[0])
    requires forall c :: c in pre ==> IsRegexSpace(c)
    ensures forall m :: 0 <= m < |pre| ==> !IsAt(pre + t, key, m)
  {
    var s := pre + t;
    forall m | 0 <= m < |pre| ensures !IsAt(s, key, m) {
      assert s[m] == pre[m];
      if m + |key| <= |s| {
        assert s[m..m + |key|][0] == s[m];
      }
    }
  }

  /** Where the parts of `pre + key + ws + q1 + v + q2 + rest` lie. */
  lemma QuotedLayout(pre: string, key: string, ws: string, q1: char, v: string, q2: char, rest: string)
    requires forall c :: c in ws ==> IsRegexSpace(c)
    requires forall c :: c in v ==> !IsQuote(c)
    ensures var s := pre + (key + (ws + ([q1] + (v + ([q2] + rest)))));
      var i := |pre|; var j := i + |key| + |ws|; var k := j + 1 + |v|;
      && IsAt(s, key, i) && k < |s| && s[j] == q1 && s[k] == q2 && s[j + 1..k] == v
      && (forall m :: i + |key| <= m < j ==> IsRegexSpace(s[m]))
      && (forall m :: j + 1 <= m < k ==> !IsQuote(s[m]))
  {
    var u := [q1] + (v + ([q2] + rest));
    KeySpacesLayout(pre, key, ws, u);
    QuotedValueLayout(pre + (key + ws), q1, v, q2, rest);
    assert pre + (key + (ws + u)) == (pre + (key + ws)) + u;
  }

  /** In `pre + key + ws + u`, the key lies at `|pre|` and white space follows it up to `u`. */
  lemma KeySpacesLayout(pre: string, key: string, ws: string, u: string)
    requires forall c :: c in ws ==> IsRegexSpace(c)
    ensures var s := pre + (key + (ws + u)); var i := |pre|;
      && IsAt(s, key, i)
      && forall m :: i + |key| <= m < i + |key| + |ws| ==> IsRegexSpace(s[m])
  {
    var t4 := ws + u;
    var t5 := key + t4;
    var s := pre + t5;
    var i := |pre|;
    assert s[i..i + |key|] == t5[..|key|] == key;
    forall m | i + |key| <= m < i + |key| + |ws| ensures IsRegexSpace(s[m]) {
      assert s[m] == t5[m - i] == t4[m - i - |key|] == ws[m - i - |key|];
    }
  }

  /** In `head + q1 + v + q2 + rest`, the quotes frame `v` and no quote lies between them. */
  lemma QuotedValueLayout(head: string, q1: char, v: string, q2: char, rest: string)
    requires forall c :: c in v ==> !IsQuote(c)
    ensures var s := head + ([q1] + (v + ([q2] + rest))); var j := |head|; var k := j + 1 + |v|;
      && k < |s| && s[j] == q1 && s[k] == q2 && s[j + 1..k] == v
      && forall m :: j + 1 <= m < k ==> !IsQuote(s[m])
  {
    var t1 := [q2] + rest;
    var t2 := v + t1;
    var t3 := [q1] + t2;
    var s := head + t3;
    var j := |head|;
    var k := j + 1 + |v|;
    assert s[j] == t3[0] == q1;
    forall m | j + 1 <= m < k ensures !IsQuote(s[m]) {
      assert s[m] == t2[m - j - 1] == v[m - j - 1];
    }
    assert s[k] == t1[0] == q2;
    assert s[j + 1..k] == t2[..|v|] == v;
  }

  /** Leading white space shifts nothing: a piece that starts with spaces and then a match captures that match's value. */
  lemma FieldAfterSpaces(pre: string, key: string, ws: string, q1: char, v: string, q2: char, rest: string)
    requires key != [] && !IsRegexSpace(key[0])
    requires forall c :: c in pre ==> IsRegexSpace(c)
    requires forall c :: c in ws ==> IsRegexSpace(c)
    requires IsQuote(q1) && IsQuote(q2) && v != []
    requires forall c :: c in v ==> !IsQuote(c)
    ensures FieldValue(pre + (key + (ws + ([q1] + (v + ([q2] + rest))))), key) == Some(v)
  {
    var t := key + (ws + ([q1] + (v + ([q2] + rest))));
    var s := pre + t;
    var i := |pre|;
    var j := i + |key| + |ws|;
    var k := j + 1 + |v|;
    KeyNotInSpaces(pre, t, key);
    QuotedLayout(pre, key, ws, q1, v, q2, rest);
    FieldFirstMatch(s, key, i, j, k);
  }

  /** The first occurrence of the key, when it matches, is the capture taken. */
  lemma FieldFirstMatch(s: string, key: string, i: nat, j: nat, k: nat)
    requires forall m :: 0 <= m < i ==> !IsAt(s, key, m)
    requires IsAt(s, key, i) && i + |key| <= j && j + 1 < k < |s|
    requires forall m :: i + |key| <= m < j ==> IsRegexSpace(s[m])
    requires IsQuote(s[j]) && IsQuote(s[k])
    requires forall m :: j + 1 <= m < k ==> !IsQuote(s[m])
    ensures FieldValue(s, key) == Some(s[j + 1..k])
  {
    FieldFromSkip(s, key, 0, i);
    FieldAtValue(s, key, i, j, k);
  }

  /** A piece of the form ` file: "<url>"...` yields a stream for that URL. */
  lemma SegmentStreamOfFile(pre: string, url: string, rest: string, resolution: string)
    requires forall c :: c in pre ==> IsRegexSpace(c)
    requires url != [] && forall c :: c in url ==> !IsQuote(c)
    ensures SegmentStream(pre + "file: \"" + url + "\"" + rest, resolution).Some?
    ensures SegmentStream(pre + "file: \"" + url + "\"" + rest, resolution).value.url == url
  {
    var s := pre + "file: \"" + url + "\"" + rest;
    assert s == pre + ("file:" + (" " + (['"'] + (url + (['"'] + rest)))));
    FieldAfterSpaces(pre, "file:", " ", '"', url, '"', rest);
    FieldFromShape(s, "file:", 0);
  }

  /** The first quote after a run of non-quotes that ends in a quote is the end of that run. */
  lemma {:induction false} QuoteFromStops(s: string, j: nat, k: nat)
    requires j <= k < |s|
    requires forall m :: j <= m < k ==> !IsQuote(s[m])
    requires IsQuote(s[k])
    ensures QuoteFrom(s, j) == k
    decreases k - j
  {
    if j < k {
      QuoteFromStops(s, j + 1, k);
    }
  }

  // ------------------------------------------------------------------ streams of a page

  /** What a stream is called: `Prehraj.to <label>`, plus ` (Source: <resolution>)` when the page lists one. */
  function StreamName(labelText: string, resolution: string): string {
    "Prehraj.to " + labelText + (if resolution != "" then " (Source: " + resolution + ")" else "")
  }

  /** The stream one `{`-piece of the array yields: it needs a `file:` capture; the label defaults to `Unknown`. */
  function SegmentStream(seg: string, resolution: string): Option<Stream> {
    if !Contains(seg, "file:") then None
    else
      var file := FieldValue(seg, "file:");
      if file.None? then None
      else
        var labelMatch := FieldValue(seg, "label:");
        var labelText := if labelMatch.Some? then labelMatch.value else "Unknown";
        Some(Stream(StreamName(labelText, resolution), labelText, file.value))
  }

  /** A piece yields a stream exactly when it has a `file:` capture; the stream's URL is that capture and its title is its label. */
  lemma SegmentStreamShape(seg: string, resolution: string)
    ensures SegmentStream(seg, resolution).Some? <==> FieldValue(seg, "file:").Some?
    ensures SegmentStream(seg, resolution).Some? ==>
      var st := SegmentStream(seg, resolution).value;
      && st.url == FieldValue(seg, "file:").value
      && st.title == (if FieldValue(seg, "label:").Some? then FieldValue(seg, "label:").value else "Unknown")
      && st.name == StreamName(st.title, resolution)
  {
    FieldFromShape(seg, "file:", 0);
  }

  /** The streams of all pieces, in order. */
  function StreamsOf(segs: seq<string>, resolution: string): seq<Stream>
    decreases |segs|
  {
    if segs == [] then []
    else
      var n := |segs| - 1;
      var st := SegmentStream(segs[n], resolution);
      StreamsOf(segs[..n], resolution) + (if st.Some? then [st.value] else [])
  }

  /** Every stream of a page comes from one of its pieces. */
  lemma {:induction false} StreamsOfFrom(segs: seq<string>, resolution: string)
    ensures forall st :: st in StreamsOf(segs, resolution) ==> exists k :: 0 <= k < |segs| && SegmentStream(segs[k], resolution) == Some(st)
    decreases |segs|
  {
    if segs != [] {
      var n := |segs| - 1;
      StreamsOfFrom(segs[..n], resolution);
      forall st | st in StreamsOf(segs, resolution)
        ensures exists k :: 0 <= k < |segs| && SegmentStream(segs[k], resolution) == Some(st)
      {
        if st in StreamsOf(segs[..n], resolution) {
          var k :| 0 <= k < n && SegmentStream(segs[..n][k], resolution) == Some(st);
          assert segs[..n][k] == segs[k];
        } else {
          assert SegmentStream(segs[n], resolution) == Some(st);
        }
      }
    }
  }

  // ------------------------------------------------------------------ the page's resolution

  /** The label of the resolution entry on a video page. */
  const ResolutionMarker: string := "Rozli\U{0161}en\U{00ED}:"

  /** An `<li>` of the page: its whole text and the texts of its `<span>`s. */
  datatype ListItem = ListItem(text: string, spans: seq<string>)

  /** After the spans of one marked item: the last span without the marker, trimmed, or `r` when there is none. */
  function SpanResolution(spans: seq<string>, r: string): string
    decreases |spans|
  {
    if spans == [] then r
    else
      var n := |spans| - 1;
      if Contains(spans[n], ResolutionMarker) then SpanResolution(spans[..n], r) else TrimSpace(spans[n])
  }

  /** The resolution read from the items: each marked item's spans overwrite it in turn. */
  function Resolution(items: seq<ListItem>): string
    decreases |items|
  {
    if items == [] then ""
    else
      var n := |items| - 1;
      var r := Resolution(items[..n]);
      if Contains(items[n].text, ResolutionMarker) then SpanResolution(items[n].spans, r) else r
  }

  /** The usual entry, a marker span and a value span, gives the trimmed value. */
  lemma ResolutionOfEntry(before: seq<ListItem>, value: string)
    requires !Contains(value, ResolutionMarker)
    ensures Resolution(before + [ListItem(ResolutionMarker + value, [ResolutionMarker, value])]) == TrimSpace(value)
  {
    var item := ListItem(ResolutionMarker + value, [ResolutionMarker, value]);
    var items := before + [item];
    assert items[..|items| - 1] == before;
    assert IsAt(item.text, ResolutionMarker, 0) by {
      assert item.text[..|ResolutionMarker|] == ResolutionMarker;
    }
    ContainsAt(item.text, ResolutionMarker, 0);
  }

  /** Items without the marker never change the resolution. */
  lemma {:induction false} ResolutionUnmarked(items: seq<ListItem>, more: seq<ListItem>)
    requires forall k :: 0 <= k < |more| ==> !Contains(more[k].text, ResolutionMarker)
    ensures Resolution(items + more) == Resolution(items)
    decreases |more|
  {
    if more == [] {
      assert items + more == items;
    } else {
      var n := |more| - 1;
      ResolutionUnmarked(items, more[..n]);
      assert (items + more)[..|items| + n] == items + more[..n];
      assert (items + more)[|items| + n] == more[n];
    }
  }

  /** The span loop of one marked item. */
  method ReadSpans(spans: seq<string>, realResolution: string) returns (r: string)
    ensures r == SpanResolution(spans, realResolution)
  {
    r := realResolution;
    for j := 0 to |spans|
      invariant r == SpanResolution(spans[..j], realResolution)
    {
      assert spans[..j + 1][..j] == spans[..j];
      if !Contains(spans[j], ResolutionMarker) {
        r := TrimSpace(spans[j]);
      }
    }
    assert spans[..|spans|] == spans;
  }

  /** The `li` loop of `extractPrehrajStreams`. */
  method ReadResolution(items: seq<ListItem>) returns (realResolution: string)
    ensures realResolution == Resolution(items)
  {
    realResolution := "";
    for i := 0 to |items|
      invariant realResolution == Resolution(items[..i])
    {
      assert items[..i + 1][..i] == items[..i];
      if Contains(items[i].text, ResolutionMarker) {
        realResolution := ReadSpans(items[i].spans, realResolution);
      }
    }
    assert items[..|items|] == items;
  }

  // ------------------------------------------------------------------ the whole extraction

  /** The error returned when a page yields no stream. */
  const NoSources: string := "no sources found in script"

  /** The streams a page yields, before the empty-list check. */
  function PageStreams(body: string, items: seq<ListItem>): seq<Stream> {
    var json := SourcesJson(body);
    if json.None? then [] else StreamsOf(Split(json.value, "{"), Resolution(items))
  }

  /** The outcome of `extractPrehrajStreams` for a fetched page. */
  function ExtractSpec(body: string, items: seq<ListItem>): (r: Result<seq<Stream>>)
    ensures r.Failure? <==> PageStreams(body, items) == []
    ensures r.Failure? ==> r.error == NoSources
    ensures r.Success? ==> r.value == PageStreams(body, items)
  {
    var streams := PageStreams(body, items);
    if streams == [] then Failure(NoSources) else Success(streams)
  }

  /** The piece loop of `extractPrehrajStreams`. */
  method SegmentLoop(segments: seq<string>, realResolution: string) returns (streams: seq<Stream>)
    ensures streams == StreamsOf(segments, realResolution)
  {
    streams := [];
    for i := 0 to |segments|
      invariant streams == StreamsOf(segments[..i], realResolution)
    {
      assert segments[..i + 1][..i] == segments[..i];
      var seg := segments[i];
      if !Contains(seg, "file:") {
        assert SegmentStream(seg, realResolution) == None;
        continue;
      }
      var fileMatch := FieldValue(seg, "file:");
      var labelMatch := FieldValue(seg, "label:");
      if fileMatch.Some? {
        var url := fileMatch.value;
        var labelText := "Unknown";
        if labelMatch.Some? {
          labelText := labelMatch.value;
        }
        var name := "Prehraj.to " + labelText;
        if realResolution != "" {
          name := name + " (Source: " + realResolution + ")";
          assert name == "Prehraj.to " + labelText + (" (Source: " + realResolution + ")");
        } else {
          assert name == "Prehraj.to " + labelText + "";
        }
        assert SegmentStream(seg, realResolution) == Some(Stream(name, labelText, url));
        streams := streams + [Stream(name, labelText, url)];
      } else {
        assert SegmentStream(seg, realResolution) == None;
      }
    }
    assert segments[..|segments|] == segments;
  }

  /** `extractPrehrajStreams` after the fetch: the sources array, the resolution, the pieces, then the empty check. */
  method ExtractStreams(bodyString: string, items: seq<ListItem>) returns (r: Result<seq<Stream>>)
    ensures r == ExtractSpec(bodyString, items)
  {
    var matches := SourcesJson(bodyString);
    var realResolution := ReadResolution(items);
    var streams := [];
    if matches.Some? {
      var jsonStr := matches.value;
      var segments := Split(jsonStr, "{");
      streams := SegmentLoop(segments, realResolution);
    }
    if |streams| == 0 {
      return Failure(NoSources);
    }
    return Success(streams);
  }
}
