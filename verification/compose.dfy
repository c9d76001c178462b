/**
 * How the stream handler turns the streams read from one hit's page into the
 * streams it answers with (main.go:891-921): the resolution noted in the name
 * is read back, the name becomes the marker and the label, and the title
 * becomes a description of the hit. The emoji of the source are kept as the
 * code points its text actually holds, so the formats here and the patterns of
 * the ranking share them exactly.
 */
module Compose {
  import opened Text
  import opened Streams
  import opened SearchPage
  import Extract

  /** The lightning marker between `Prehraj.to` and the label (main.go:905, main.go:940). */
  const Marker: string := "\U{201A}\U{00F6}\U{00B0}"
  /** The folder marker in front of the hit's title (main.go:908). */
  const Folder: string := "\U{F8FF}\U{00FC}\U{00EC}\U{00C7}"
  /** The disk marker in front of the size (main.go:908, main.go:943). */
  const Disk: string := "\U{F8FF}\U{00FC}\U{00ED}\U{00E6}"
  /** The bullet between the size and the duration (main.go:908). */
  const Bullet: string := "\U{201A}\U{00C4}\U{00A2}"
  /** The timer marker in front of the duration (main.go:908). */
  const Timer: string := "\U{201A}\U{00E8}\U{00B1}\U{00D4}\U{220F}\U{00E8}"
  /** The gear marker in front of the source line (main.go:917). */
  const Gear: string := "\U{201A}\U{00F6}\U{00F4}\U{00D4}\U{220F}\U{00E8}"

  const SourceTag: string := "Source:"

  /** The resolution noted in an extracted stream's name: the text between the first and the second `Source:`, trimmed, without one closing parenthesis. */
  function ParseSourceRes(name: string): string {
    if Contains(name, SourceTag) then
      var parts := Split(name, SourceTag);
      if |parts| > 1 then TrimSuffix(TrimSpace(parts[1]), ")") else ""
    else ""
  }

  /** The source resolution as the description shows it. */
  function DisplaySource(sourceRes: string): string {
    if Contains(sourceRes, "3840") || Contains(sourceRes, "2160") then "4K"
    else if Contains(sourceRes, "1920") || Contains(sourceRes, "1080") then "1080p"
    else sourceRes
  }

  /** The first two lines of the description: the hit's title, then its size and duration. */
  function HitLines(res: PrehrajResult): string {
    Folder + " " + res.title + "\n" + Disk + " " + res.size + " " + Bullet + " " + Timer + " " + res.duration
  }

  /** The description: the hit's lines, then a source line when a resolution was read from the name. */
  function Description(res: PrehrajResult, sourceRes: string): string {
    if sourceRes != "" then HitLines(res) + "\n" + Gear + " " + SourceTag + " " + DisplaySource(sourceRes)
    else HitLines(res)
  }

  /** The name: `Prehraj.to`, the marker and the label. */
  function ComposedName(labelText: string): string {
    "Prehraj.to " + Marker + " " + labelText
  }

  /** The stream answered for one extracted stream of a hit: the label moves into the name, the description into the title, the URL stays. */
  function ComposeStream(res: PrehrajResult, s: Stream): Stream {
    Stream(ComposedName(s.title), Description(res, ParseSourceRes(s.name)), s.url)
  }

  /** The streams answered for all the streams extracted from one hit's page, in order. */
  function ComposeAll(res: PrehrajResult, extracted: seq<Stream>): (out: seq<Stream>)
    ensures |out| == |extracted|
    ensures forall k :: 0 <= k < |out| ==> out[k] == ComposeStream(res, extracted[k])
    decreases |extracted|
  {
    if extracted == [] then []
    else
      var n := |extracted| - 1;
      ComposeAll(res, extracted[..n]) + [ComposeStream(res, extracted[n])]
  }

  lemma ComposeAllSnoc(res: PrehrajResult, extracted: seq<Stream>, k: nat)
    requires k < |extracted|
    ensures ComposeAll(res, extracted[..k + 1]) == ComposeAll(res, extracted[..k]) + [ComposeStream(res, extracted[k])]
  {
    assert extracted[..k + 1][..k] == extracted[..k];
  }

  /** The body of the loop for one extracted stream: read the resolution back, build the name and the description. */
  method ComposeOne(res: PrehrajResult, s: Stream) returns (composed: Stream)
    ensures composed == ComposeStream(res, s)
  {
    var sourceRes := "";
    if Contains(s.name, SourceTag) {
      var parts := Split(s.name, SourceTag);
      if |parts| > 1 {
        sourceRes := TrimSuffix(TrimSpace(parts[1]), ")");
      }
    }
    var labelText := s.title;
    var name := ComposedName(labelText);
    var description := HitLines(res);
    if sourceRes != "" {
      var displaySource := DisplaySource(sourceRes);
      description := description + "\n" + Gear + " " + SourceTag + " " + displaySource;
    }
    composed := Stream(name, description, s.url);
  }

  /** The loop over one page's streams, appending to `streams`. */
  method ComposeStreams(res: PrehrajResult, extracted: seq<Stream>, streams: seq<Stream>) returns (out: seq<Stream>)
    ensures out == streams + ComposeAll(res, extracted)
  {
    out := streams;
    for k := 0 to |extracted|
      invariant out == streams + ComposeAll(res, extracted[..k])
    {
      var composed := ComposeOne(res, extracted[k]);
      ComposeAllSnoc(res, extracted, k);
      out := out + [composed];
    }
    assert extracted[..|extracted|] == extracted;
  }

  // ------------------------------------------------------------------ reading the resolution back

  /** Text without `Source:` between two pieces without an `S` that end and start with a character outside `Source:` holds no `Source:`. */
  lemma FramedLacksTag(before: string, mid: string, after: string)
    requires !Contains(mid, SourceTag)
    requires before != [] && 'S' !in before && before[|before| - 1] !in SourceTag
    requires after != [] && 'S' !in after && after[0] !in SourceTag
    ensures !Contains(before + mid + after, SourceTag)
  {
    NotContainsHead(before, SourceTag);
    NotContainsHead(after, SourceTag);
    NotContainsJoin(mid, after, SourceTag);
    NotContainsJoin(before, mid + after, SourceTag);
    assert before + mid + after == before + (mid + after);
  }

  /**
   * Reading the resolution back out of a name that stream extraction built
   * gives the resolution it was built with, provided neither the label nor the
   * resolution holds `Source:` and the resolution is trimmed (as the extracted
   * one is).
   */
  lemma ParseSourceResOfName(labelText: string, resolution: string)
    requires IsTrimmed(resolution)
    requires !Contains(labelText, SourceTag) && !Contains(resolution, SourceTag)
    ensures ParseSourceRes(Extract.StreamName(labelText, resolution)) == resolution
  {
    var name := Extract.StreamName(labelText, resolution);
    if resolution == "" {
      assert name == "Prehraj.to " + labelText;
      NotContainsHead("Prehraj.to ", SourceTag);
      NotContainsJoin("Prehraj.to ", labelText, SourceTag);
    } else {
      var head := "Prehraj.to " + labelText + " (";
      var tail := " " + resolution + ")";
      assert name == head + SourceTag + tail;
      assert Contains(name, SourceTag) && Split(name, SourceTag) == [head, tail] by {
        FramedLacksTag("Prehraj.to ", labelText, " (");
        FramedLacksTag(" ", resolution, ")");
        OnlyOccurrence(head, SourceTag, tail);
        SplitOnce(head, SourceTag, tail);
      }
      assert TrimSuffix(TrimSpace(tail), ")") == resolution by {
        var closed := resolution + ")";
        assert tail == [' '] + closed;
        TrimSpaceLeadingSpace(closed);
        assert HasSuffix(closed, ")");
      }
    }
  }
}
