/**
 * What the stream handler does with the filtered search hits before it opens
 * any page (main.go:846-881): keep the first hit per URL, in order, and take at
 * most the first 25 of those.
 */
module Selection {
  import opened FirstSeen
  import opened SearchPage

  /** The key the handler de-duplicates by. */
  function UrlOf(r: PrehrajResult): string {
    r.url
  }

  /** The hits the handler keeps: the first one for each URL, in the order of the input. */
  function UniqueResults(filtered: seq<PrehrajResult>): seq<PrehrajResult> {
    DedupBy(filtered, UrlOf)
  }

  /** The de-duplication loop, with the map `uniqueResults` from URL to the hit kept for it. */
  method DedupByUrl(filtered: seq<PrehrajResult>) returns (orderedUniqueResults: seq<PrehrajResult>)
    ensures orderedUniqueResults == UniqueResults(filtered)
  {
    var uniqueResults: map<string, PrehrajResult> := map[];
    orderedUniqueResults := [];
    for i := 0 to |filtered|
      invariant orderedUniqueResults == DedupBy(filtered[..i], UrlOf)
      invariant uniqueResults.Keys == KeySet(orderedUniqueResults, UrlOf)
      invariant forall u :: u in uniqueResults ==> uniqueResults[u] in orderedUniqueResults && uniqueResults[u].url == u
    {
      var res := filtered[i];
      assert filtered[..i + 1] == filtered[..i] + [res];
      assert filtered[..i + 1][..i] == filtered[..i];
      if res.url !in uniqueResults {
        KeySetSnoc(orderedUniqueResults, res, UrlOf);
        uniqueResults := uniqueResults[res.url := res];
        orderedUniqueResults := orderedUniqueResults + [res];
      }
    }
    assert filtered[..|filtered|] == filtered;
  }

  /** The kept hits have pairwise different URLs. */
  lemma UniqueResultsDistinct(filtered: seq<PrehrajResult>)
    ensures forall a, b :: 0 <= a < b < |UniqueResults(filtered)| ==> UniqueResults(filtered)[a].url != UniqueResults(filtered)[b].url
  {
    DedupByDistinct(filtered, UrlOf);
  }

  /** Every URL of the input is kept, and every kept hit was in the input. */
  lemma UniqueResultsCover(filtered: seq<PrehrajResult>)
    ensures forall r :: r in filtered ==> exists a :: 0 <= a < |UniqueResults(filtered)| && UniqueResults(filtered)[a].url == r.url
    ensures forall r :: r in UniqueResults(filtered) ==> r in filtered
  {
    var d := UniqueResults(filtered);
    DedupByKeys(filtered, UrlOf);
    DedupByFirst(filtered, UrlOf);
    forall r | r in filtered ensures exists a :: 0 <= a < |d| && d[a].url == r.url {
      var i :| 0 <= i < |filtered| && filtered[i] == r;
      assert UrlOf(filtered[i]) in KeySet(filtered, UrlOf);
      var a :| 0 <= a < |d| && UrlOf(d[a]) == r.url;
    }
  }

  /** Each kept hit is the first input hit with its URL, and the kept hits come in input order. */
  lemma UniqueResultsFirst(filtered: seq<PrehrajResult>)
    ensures forall a :: 0 <= a < |UniqueResults(filtered)| ==>
      exists i :: 0 <= i < |filtered| && UniqueResults(filtered)[a] == filtered[i] &&
        forall j :: 0 <= j < i ==> filtered[j].url != filtered[i].url
    ensures forall a, b :: 0 <= a < b < |UniqueResults(filtered)| ==>
      FirstIndex(filtered, UrlOf, UniqueResults(filtered)[a].url) < FirstIndex(filtered, UrlOf, UniqueResults(filtered)[b].url)
  {
    var d := UniqueResults(filtered);
    DedupByFirst(filtered, UrlOf);
    forall a | 0 <= a < |d|
      ensures exists i :: 0 <= i < |filtered| && d[a] == filtered[i] && forall j :: 0 <= j < i ==> filtered[j].url != filtered[i].url
    {
      var i := FirstIndex(filtered, UrlOf, UrlOf(d[a]));
      assert forall j :: 0 <= j < i ==> UrlOf(filtered[j]) != UrlOf(d[a]);
    }
    forall a, b | 0 <= a < b < |d|
      ensures FirstIndex(filtered, UrlOf, d[a].url) < FirstIndex(filtered, UrlOf, d[b].url)
    {
      assert UrlOf(d[a]) == d[a].url && UrlOf(d[b]) == d[b].url;
    }
  }

  /** How many pages the handler opens at most. */
  const ExtractionLimit := 25

  /** The hits whose pages are opened: the first `ExtractionLimit` of them, or all when there are fewer. */
  function ExtractionTargets(ordered: seq<PrehrajResult>): (targets: seq<PrehrajResult>)
    ensures |targets| == if |ordered| < ExtractionLimit then |ordered| else ExtractionLimit
    ensures targets == ordered[..|targets|]
  {
    if |ordered| < ExtractionLimit then ordered else ordered[..ExtractionLimit]
  }

  /** The launch loop: `limit` is 25 or fewer, and the i-th page opened is the i-th kept hit. */
  method LaunchTargets(orderedUniqueResults: seq<PrehrajResult>) returns (launched: seq<PrehrajResult>)
    ensures launched == ExtractionTargets(orderedUniqueResults)
  {
    var limit := ExtractionLimit;
    if |orderedUniqueResults| < limit {
      limit := |orderedUniqueResults|;
    }
    launched := [];
    for i := 0 to limit
      invariant launched == orderedUniqueResults[..i]
    {
      launched := launched + [orderedUniqueResults[i]];
    }
  }
}
