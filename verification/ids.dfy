/**
 * Stremio resource paths and the addon's `eztmdb:` identifiers: how the
 * handlers cut a request path apart, how episode IDs are written, and how the
 * stream handler reads them back.
 */
module Ids {
  import opened Wrappers
  import opened Text
  import Queries

  /** The ID prefix the addon declares and answers for. */
  const IdPrefix: string := "eztmdb:"

  /** The ID of an episode video, `eztmdb:<tmdbID>:<season>:<episode>` with decimal numbers (main.go:574). */
  function EpisodeId(tmdbId: string, season: Int64, episode: Int64): string {
    IdPrefix + tmdbId + ":" + Itoa(season) + ":" + Itoa(episode)
  }

  // ------------------------------------------------------------------ request paths

  /** The type and ID segments of `/<resource>/<type>/<id>.json`. */
  datatype Resource = Resource(kind: string, id: string)

  /**
   * The path handling shared by the meta, stream and catalog handlers: split at
   * `/`, fewer than four parts is "not found", the type is part 2 and the ID is
   * part 3 without a trailing `.json`.
   */
  function ParseResourcePath(path: string): (r: Option<Resource>)
    ensures r.Some? <==> |Split(path, "/")| >= 4
    ensures r.Some? ==> r.value.kind == Split(path, "/")[2]
    ensures r.Some? ==> r.value.id + (if HasSuffix(Split(path, "/")[3], ".json") then ".json" else "") == Split(path, "/")[3]
  {
    var parts := Split(path, "/");
    if |parts| < 4 then None
    else Some(Resource(parts[2], TrimSuffix(parts[3], ".json")))
  }

  /** A path the addon's clients send is read back into its type and ID. */
  lemma ResourcePathRoundTrip(resource: string, kind: string, id: string)
    requires '/' !in resource && '/' !in kind && '/' !in id
    ensures ParseResourcePath("/" + resource + "/" + kind + "/" + id + ".json") == Some(Resource(kind, id))
  {
    var file := id + ".json";
    var parts := ["", resource, kind, file];
    assert Join(parts[3..], "/") == file;
    assert Join(parts[2..], "/") == kind + "/" + file;
    assert Join(parts[1..], "/") == resource + "/" + (kind + "/" + file);
    assert Join(parts, "/") == "/" + resource + "/" + kind + "/" + id + ".json";
    SplitJoin(parts, '/');
    assert file[|file| - 5..] == ".json";
    assert file[..|file| - 5] == id;
  }

  // ------------------------------------------------------------------ stream IDs

  /** What the stream handler takes from a stream ID: the TMDB ID and, for an episode, season and episode text. */
  datatype StreamTarget = StreamTarget(tmdbId: string, season: string, episode: string)

  /**
   * The ID checks of `handleStream` (main.go:659-680): `None` stands for the
   * empty stream list returned for a foreign or malformed ID.
   */
  function ParseStreamId(streamId: string): (r: Option<StreamTarget>)
    ensures r.Some? <==> HasPrefix(streamId, IdPrefix)
    ensures r.Some? ==> |Split(streamId, ":")| >= 2 && r.value.tmdbId == Split(streamId, ":")[1]
    ensures r.Some? && |Split(streamId, ":")| < 4 ==> r.value.season == "" && r.value.episode == ""
  {
    if !HasPrefix(streamId, IdPrefix) then None
    else
      PrefixedSplit(streamId);
      var idParts := Split(streamId, ":");
      if |idParts| < 2 then None
      else if |idParts| >= 4 then Some(StreamTarget(idParts[1], idParts[2], idParts[3]))
      else Some(StreamTarget(idParts[1], "", ""))
  }

  lemma PrefixSplit(rest: string)
    ensures Split(IdPrefix + rest, ":") == ["eztmdb"] + Split(rest, ":")
  {
    assert IdPrefix + rest == "eztmdb" + [':'] + rest;
    SplitAtFirst("eztmdb", ':', rest);
  }

  /** An ID with the prefix splits into `eztmdb` and at least one more part. */
  lemma PrefixedSplit(s: string)
    requires HasPrefix(s, IdPrefix)
    ensures |Split(s, ":")| >= 2 && Split(s, ":")[0] == "eztmdb"
  {
    assert s == IdPrefix + s[|IdPrefix|..];
    PrefixSplit(s[|IdPrefix|..]);
  }

  /** An episode ID reads back as its TMDB ID and the decimal season and episode numbers. */
  lemma EpisodeIdRoundTrip(tmdbId: string, season: Int64, episode: Int64)
    requires ':' !in tmdbId
    ensures ParseStreamId(EpisodeId(tmdbId, season, episode)) == Some(StreamTarget(tmdbId, Itoa(season), Itoa(episode)))
  {
    var s, e := Itoa(season), Itoa(episode);
    var parts := ["eztmdb", tmdbId, s, e];
    assert Join(parts[3..], ":") == e;
    assert Join(parts[2..], ":") == s + ":" + e;
    assert Join(parts[1..], ":") == tmdbId + ":" + (s + ":" + e);
    assert Join(parts, ":") == EpisodeId(tmdbId, season, episode);
    assert ':' !in s && ':' !in e;
    SplitJoin(parts, ':');
  }

  /** A title's own ID, without season and episode, reads back as its TMDB ID. */
  lemma TitleIdRoundTrip(tmdbId: string)
    requires ':' !in tmdbId
    ensures ParseStreamId(IdPrefix + tmdbId) == Some(StreamTarget(tmdbId, "", ""))
  {
    SplitNone(tmdbId, ':');
    PrefixSplit(tmdbId);
  }

  /** The search suffix built from an episode ID carries that ID's own season and episode numbers. */
  lemma EpisodeIdSuffix(tmdbId: string, season: Int64, episode: Int64)
    requires ':' !in tmdbId
    ensures var t := ParseStreamId(EpisodeId(tmdbId, season, episode)).value;
      Queries.EpisodeSuffix(t.season, t.episode) == " S" + Pad2(season) + "E" + Pad2(episode)
  {
    EpisodeIdRoundTrip(tmdbId, season, episode);
    AtoiItoa(season);
    AtoiItoa(episode);
  }

  /** The meta handler's ID check (main.go:345-358): the text after `eztmdb:`, or `None` for a foreign ID. */
  function ParseMetaId(metaId: string): (r: Option<string>)
    ensures r.Some? <==> HasPrefix(metaId, IdPrefix)
    ensures r.Some? ==> metaId == IdPrefix + r.value
  {
    if HasPrefix(metaId, IdPrefix) then Some(TrimPrefix(metaId, IdPrefix)) else None
  }

  // ------------------------------------------------------------------ catalog requests

  /** Go's `/` on integers: the quotient truncated toward zero. */
  function GoDiv(a: int, b: int): (q: int)
    requires b > 0
    ensures a >= 0 ==> 0 <= q && q * b <= a < q * b + b
    ensures a < 0 ==> q <= 0 && q * b - b < a <= q * b
  {
    var n := if a >= 0 then a else -a;
    assert n == (n / b) * b + n % b && 0 <= n % b < b;
    if a >= 0 then n / b else -(n / b)
  }

  /** The page a `skip=` offset asks for: `skip / 20 + 1`. */
  function SkipPage(skip: int): int {
    GoDiv(skip, 20) + 1
  }

  /** For a non-negative offset, the page is the page of twenty items that holds item number `skip`. */
  lemma SkipPageHoldsOffset(skip: int)
    requires skip >= 0
    ensures SkipPage(skip) >= 1
    ensures (SkipPage(skip) - 1) * 20 <= skip < SkipPage(skip) * 20
  {
  }

  /** What the catalog handler reads from a request. */
  datatype CatalogRequest = CatalogRequest(kind: string, catalogId: string, page: int, query: string)

  /** One extra segment: `skip=<n>` sets the page when `n` parses, `search=<q>` sets the query; `.json` is cut first. */
  function ApplyExtra(req: CatalogRequest, part: string): CatalogRequest {
    var p := TrimSuffix(part, ".json");
    if HasPrefix(p, "skip=") then
      match Atoi(TrimPrefix(p, "skip="))
      case Some(skip) => req.(page := SkipPage(skip))
      case None => req
    else if HasPrefix(p, "search=") then req.(query := TrimPrefix(p, "search="))
    else req
  }

  /** The extra segments applied in order. */
  function ApplyExtras(req: CatalogRequest, parts: seq<string>): CatalogRequest
    decreases |parts|
  {
    if parts == [] then req else ApplyExtra(ApplyExtras(req, parts[..|parts| - 1]), parts[|parts| - 1])
  }

  /** The request a catalog path denotes, starting from page 1 and no query. */
  function CatalogSpec(path: string): Option<CatalogRequest> {
    match ParseResourcePath(path)
    case None => None
    case Some(res) =>
      Some(ApplyExtras(CatalogRequest(res.kind, res.id, 1, ""), Split(path, "/")[4..]))
  }

  /** Extras never change the type or catalog ID. */
  lemma {:induction false} ApplyExtrasKeepsTarget(req: CatalogRequest, parts: seq<string>)
    ensures ApplyExtras(req, parts).kind == req.kind
    ensures ApplyExtras(req, parts).catalogId == req.catalogId
    decreases |parts|
  {
    if parts != [] {
      ApplyExtrasKeepsTarget(req, parts[..|parts| - 1]);
    }
  }

  /** The offset a segment sets, when it is `skip=` with a number `strconv.Atoi` takes. */
  function SkipOf(part: string): Option<int> {
    var p := TrimSuffix(part, ".json");
    if HasPrefix(p, "skip=") then Atoi(TrimPrefix(p, "skip=")) else None
  }

  /** No segment of `parts[lo..hi]` sets an offset. */
  predicate NoSkipBetween(parts: seq<string>, lo: nat, hi: nat)
    requires lo <= hi <= |parts|
  {
    forall j :: lo <= j < hi ==> SkipOf(parts[j]).None?
  }

  /** The offset of the last segment that sets one. */
  function LastSkip(parts: seq<string>): (r: Option<int>)
    ensures r.Some? ==> exists k :: 0 <= k < |parts| && SkipOf(parts[k]) == r && NoSkipBetween(parts, k + 1, |parts|)
    ensures r.None? ==> NoSkipBetween(parts, 0, |parts|)
    decreases |parts|
  {
    if parts == [] then None
    else if SkipOf(parts[|parts| - 1]).Some? then SkipOf(parts[|parts| - 1])
    else
      var r := LastSkip(parts[..|parts| - 1]);
      NoSkipExtends(parts);
      r
  }

  /** A last segment without an offset extends every suffix fact about the segments before it. */
  lemma NoSkipExtends(parts: seq<string>)
    requires parts != [] && SkipOf(parts[|parts| - 1]).None?
    ensures forall k :: 0 <= k < |parts| - 1 ==> parts[..|parts| - 1][k] == parts[k]
    ensures forall a :: 0 <= a <= |parts| - 1 && NoSkipBetween(parts[..|parts| - 1], a, |parts| - 1) ==> NoSkipBetween(parts, a, |parts|)
  {
  }

  /** The page is that of the last parsable `skip=`, and stays as it was without one. */
  lemma {:induction false} ApplyExtrasPageIs(req: CatalogRequest, parts: seq<string>)
    ensures ApplyExtras(req, parts).page == if LastSkip(parts).Some? then SkipPage(LastSkip(parts).value) else req.page
    decreases |parts|
  {
    if parts != [] {
      ApplyExtrasPageIs(req, parts[..|parts| - 1]);
    }
  }

  /** Without a negative `skip=`, the page stays at least 1. */
  lemma {:induction false} ApplyExtrasPage(req: CatalogRequest, parts: seq<string>)
    requires req.page >= 1
    requires forall k :: 0 <= k < |parts| ==> !HasPrefix(TrimSuffix(parts[k], ".json"), "skip=-")
    ensures ApplyExtras(req, parts).page >= 1
    decreases |parts|
  {
    if parts != [] {
      var n := |parts| - 1;
      ApplyExtrasPage(req, parts[..n]);
      var p := TrimSuffix(parts[n], ".json");
      var num := TrimPrefix(p, "skip=");
      if HasPrefix(p, "skip=") && Atoi(num).Some? {
        assert p == "skip=" + num;
        assert p[..6] == "skip=" + [num[0]];
        assert num[0] != '-';
      }
    }
  }

  /** `handleCatalog`'s reading of the path (main.go:282-311); `None` is "not found". */
  method ParseCatalogPath(path: string) returns (r: Option<CatalogRequest>, fetchesTmdb: bool)
    ensures r == CatalogSpec(path)
    ensures fetchesTmdb <==> r.Some? && HasPrefix(r.value.catalogId, "tmdb_")
  {
    var parts := Split(path, "/");
    if |parts| < 4 {
      return None, false;
    }
    var catType := parts[2];
    var catId := parts[3];
    if HasSuffix(catId, ".json") {
      catId := TrimSuffix(catId, ".json");
    }
    var page := 1;
    var query := "";
    if |parts| > 4 {
      var extras := parts[4..];
      for i := 0 to |extras|
        invariant CatalogRequest(catType, catId, page, query) == ApplyExtras(CatalogRequest(catType, catId, 1, ""), extras[..i])
      {
        var part := extras[i];
        if HasSuffix(part, ".json") {
          part := TrimSuffix(part, ".json");
        }
        if HasPrefix(part, "skip=") {
          var skip := Atoi(TrimPrefix(part, "skip="));
          if skip.Some? {
            page := GoDiv(skip.value, 20) + 1;
          }
        } else if HasPrefix(part, "search=") {
          query := TrimPrefix(part, "search=");
        }
        assert extras[..i + 1][..i] == extras[..i];
      }
      assert extras[..|extras|] == extras;
    } else {
      assert parts[4..] == [];
    }
    r := Some(CatalogRequest(catType, catId, page, query));
    fetchesTmdb := HasPrefix(catId, "tmdb_");
  }
}
