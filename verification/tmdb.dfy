/**
 * The artwork and release facts the meta handler picks out of a decoded TMDB
 * detail record (main.go:391-531): the poster prefers a Czech image, then a
 * Slovak one, then the record's own poster; the logo tries Czech, Slovak,
 * English and textless images in turn and falls back to the first logo; the
 * release info and runtime are read off the dates and minute counts.
 */
module Tmdb {
  import opened Wrappers
  import opened Text

  /** One entry of `images.posters` or `images.logos`: its language code and its path. */
  datatype TmdbImage = TmdbImage(iso6391: string, filePath: string)

  /** The prefix every poster and logo path is appended to. */
  const ImageBase: string := "https://image.tmdb.org/t/p/w500"

  const Czech: set<string> := {"cs"}
  const Slovak: set<string> := {"sk"}
  const English: set<string> := {"en"}
  /** Textless images: TMDB marks them `null`, or leaves the code empty. */
  const Textless: set<string> := {"null", ""}

  /** The logo stages, in the order the handler tries them. */
  const LogoStages: seq<set<string>> := [Czech, Slovak, English, Textless]

  /** `i` is the first image whose language is one of `langs`. */
  predicate IsFirst(imgs: seq<TmdbImage>, langs: set<string>, i: int) {
    0 <= i < |imgs| && imgs[i].iso6391 in langs &&
    forall j :: 0 <= j < i ==> imgs[j].iso6391 !in langs
  }

  /** No image has a language in `langs`. */
  predicate NoneIn(imgs: seq<TmdbImage>, langs: set<string>) {
    forall j :: 0 <= j < |imgs| ==> imgs[j].iso6391 !in langs
  }

  /** The first image at or after `from` whose language is one of `langs`. */
  function FirstInFrom(imgs: seq<TmdbImage>, langs: set<string>, from: nat): (r: Option<nat>)
    requires from <= |imgs|
    ensures r.Some? ==> from <= r.value < |imgs| && imgs[r.value].iso6391 in langs
    ensures forall j :: from <= j < |imgs| && (r.None? || j < r.value) ==> imgs[j].iso6391 !in langs
    decreases |imgs| - from
  {
    if from == |imgs| then None
    else if imgs[from].iso6391 in langs then Some(from)
    else FirstInFrom(imgs, langs, from + 1)
  }

  /** The first image whose language is one of `langs`, if any. */
  function FirstIn(imgs: seq<TmdbImage>, langs: set<string>): (r: Option<nat>)
    ensures r.Some? <==> !NoneIn(imgs, langs)
    ensures r.Some? ==> IsFirst(imgs, langs, r.value)
  {
    FirstInFrom(imgs, langs, 0)
  }

  /** The path of the first image in one of `langs`, or `None` when there is none. */
  function FirstPath(imgs: seq<TmdbImage>, langs: set<string>): Option<string> {
    match FirstIn(imgs, langs)
    case Some(i) => Some(imgs[i].filePath)
    case None => None
  }

  /** One `for ... range` loop of the handler: scan the images, stop at the first one in `langs`. */
  method FindImage(imgs: seq<TmdbImage>, langs: set<string>) returns (found: bool, path: string)
    ensures found <==> !NoneIn(imgs, langs)
    ensures found ==> exists i :: IsFirst(imgs, langs, i) && path == imgs[i].filePath
    ensures !found ==> path == ""
  {
    found := false;
    path := "";
    var i := 0;
    while i < |imgs|
      invariant 0 <= i <= |imgs|
      invariant forall j :: 0 <= j < i ==> imgs[j].iso6391 !in langs
    {
      if imgs[i].iso6391 in langs {
        path := imgs[i].filePath;
        found := true;
        assert IsFirst(imgs, langs, i);
        break;
      }
      i := i + 1;
    }
  }

  /** A first image is the only first image. */
  lemma FirstUnique(imgs: seq<TmdbImage>, langs: set<string>, i: int, k: int)
    requires IsFirst(imgs, langs, i) && IsFirst(imgs, langs, k)
    ensures i == k
  {
  }

  lemma FirstPathIs(imgs: seq<TmdbImage>, langs: set<string>, i: int)
    requires IsFirst(imgs, langs, i)
    ensures FirstPath(imgs, langs) == Some(imgs[i].filePath)
  {
    FirstUnique(imgs, langs, i, FirstIn(imgs, langs).value);
  }

  // ------------------------------------------------------------------ poster

  /** The poster URL: the first Czech poster, else the first Slovak one, else the record's poster path. */
  function PosterOf(posterPath: string, posters: seq<TmdbImage>): string {
    var cs := FirstPath(posters, Czech);
    var sk := FirstPath(posters, Slovak);
    if cs.Some? then ImageBase + cs.value
    else if sk.Some? then ImageBase + sk.value
    else if posterPath != "" then ImageBase + posterPath
    else ""
  }

  /** The poster resolution of the handler, with its two break loops and `found` flag. */
  method ResolvePoster(posterPath: string, posters: seq<TmdbImage>) returns (poster: string)
    ensures poster == PosterOf(posterPath, posters)
  {
    poster := "";
    if posterPath != "" {
      poster := ImageBase + posterPath;
    }
    if |posters| > 0 {
      var found, path := FindImage(posters, Czech);
      if found {
        var i :| IsFirst(posters, Czech, i) && path == posters[i].filePath;
        FirstPathIs(posters, Czech, i);
        poster := ImageBase + path;
      }
      if !found {
        found, path := FindImage(posters, Slovak);
        if found {
          var i :| IsFirst(posters, Slovak, i) && path == posters[i].filePath;
          FirstPathIs(posters, Slovak, i);
          poster := ImageBase + path;
        }
      }
    }
  }

  /**
   * The poster preference: the first Czech poster wins; without any Czech
   * poster the first Slovak one does; without either, the record's own poster,
   * or nothing when it has none. A preferred image wins even when its path is
   * empty.
   */
  lemma PosterPreference(posterPath: string, posters: seq<TmdbImage>, i: int)
    ensures IsFirst(posters, Czech, i) ==> PosterOf(posterPath, posters) == ImageBase + posters[i].filePath
    ensures NoneIn(posters, Czech) && IsFirst(posters, Slovak, i) ==> PosterOf(posterPath, posters) == ImageBase + posters[i].filePath
    ensures NoneIn(posters, Czech) && NoneIn(posters, Slovak) ==>
      PosterOf(posterPath, posters) == if posterPath != "" then ImageBase + posterPath else ""
  {
    if IsFirst(posters, Czech, i) {
      FirstPathIs(posters, Czech, i);
    }
    if NoneIn(posters, Czech) && IsFirst(posters, Slovak, i) {
      FirstPathIs(posters, Slovak, i);
    }
  }

  // ------------------------------------------------------------------ logo

  /** What one logo stage leaves in `finalLogo`: the path of its first image, or empty. */
  function StagePath(logos: seq<TmdbImage>, langs: set<string>): string {
    match FirstPath(logos, langs)
    case Some(p) => p
    case None => ""
  }

  /** The logo path chosen from stage `k` on: the first stage whose path is non-empty, else the first logo's path. */
  function FinalLogoFrom(logos: seq<TmdbImage>, k: nat): string
    requires k <= |LogoStages|
    decreases |LogoStages| - k
  {
    if k == |LogoStages| then (if |logos| > 0 then logos[0].filePath else "")
    else if StagePath(logos, LogoStages[k]) != "" then StagePath(logos, LogoStages[k])
    else FinalLogoFrom(logos, k + 1)
  }

  /** The logo URL: the chosen path under the image base, or nothing when the chosen path is empty. */
  function LogoOf(logos: seq<TmdbImage>): string {
    var finalLogo := FinalLogoFrom(logos, 0);
    if finalLogo != "" then ImageBase + finalLogo else ""
  }

  /** The logo resolution of the handler: four stages, each run only while nothing was chosen, then the fallback. */
  method ResolveLogo(logos: seq<TmdbImage>) returns (logo: string)
    ensures logo == LogoOf(logos)
  {
    logo := "";
    if |logos| > 0 {
      var finalLogo := "";
      var found, path := FindImage(logos, Czech);
      StageFound(logos, Czech, found, path);
      if found {
        finalLogo := path;
      }
      if finalLogo == "" {
        found, path := FindImage(logos, Slovak);
        StageFound(logos, Slovak, found, path);
        if found {
          finalLogo := path;
        }
      }
      if finalLogo == "" {
        found, path := FindImage(logos, English);
        StageFound(logos, English, found, path);
        if found {
          finalLogo := path;
        }
      }
      if finalLogo == "" {
        found, path := FindImage(logos, Textless);
        StageFound(logos, Textless, found, path);
        if found {
          finalLogo := path;
        }
      }
      if finalLogo == "" && |logos| > 0 {
        finalLogo := logos[0].filePath;
      }
      assert finalLogo == FinalLogoFrom(logos, 0);
      if finalLogo != "" {
        logo := ImageBase + finalLogo;
      }
    }
  }

  /** What `FindImage` reports is the stage's path. */
  lemma StageFound(logos: seq<TmdbImage>, langs: set<string>, found: bool, path: string)
    requires found <==> !NoneIn(logos, langs)
    requires found ==> exists i :: IsFirst(logos, langs, i) && path == logos[i].filePath
    requires !found ==> path == ""
    ensures path == StagePath(logos, langs)
  {
    if found {
      var i :| IsFirst(logos, langs, i) && path == logos[i].filePath;
      FirstPathIs(logos, langs, i);
    }
  }

  /** A stage hits when the first image in its languages has a non-empty path; a stage that misses passes the choice on. */
  predicate StageHit(logos: seq<TmdbImage>, langs: set<string>) {
    StagePath(logos, langs) != ""
  }

  /** Stages `s` to `k` that all miss leave the choice to stage `k`. */
  lemma {:induction false} StagesMissed(logos: seq<TmdbImage>, s: nat, k: nat)
    requires s <= k <= |LogoStages|
    requires forall m :: s <= m < k ==> !StageHit(logos, LogoStages[m])
    ensures FinalLogoFrom(logos, s) == FinalLogoFrom(logos, k)
    decreases k - s
  {
    if s < k {
      StagesMissed(logos, s + 1, k);
    }
  }

  /**
   * The logo preference: when every stage before `k` misses and the first
   * image of stage `k` has a non-empty path, that image is the logo.
   */
  lemma LogoPreference(logos: seq<TmdbImage>, k: nat, i: int)
    requires k < |LogoStages|
    requires forall m :: 0 <= m < k ==> !StageHit(logos, LogoStages[m])
    requires IsFirst(logos, LogoStages[k], i) && logos[i].filePath != ""
    ensures LogoOf(logos) == ImageBase + logos[i].filePath
  {
    StagesMissed(logos, 0, k);
    FirstPathIs(logos, LogoStages[k], i);
  }

  /** When every stage misses, the first logo is used when its path is non-empty, and otherwise there is no logo. */
  lemma LogoFallback(logos: seq<TmdbImage>)
    requires forall m :: 0 <= m < |LogoStages| ==> !StageHit(logos, LogoStages[m])
    ensures LogoOf(logos) == if |logos| > 0 && logos[0].filePath != "" then ImageBase + logos[0].filePath else ""
  {
    StagesMissed(logos, 0, |LogoStages|);
  }

  lemma {:induction false} FinalLogoFromImage(logos: seq<TmdbImage>, k: nat)
    requires k <= |LogoStages|
    ensures FinalLogoFrom(logos, k) == "" || exists i :: 0 <= i < |logos| && logos[i].filePath == FinalLogoFrom(logos, k)
    decreases |LogoStages| - k
  {
    if k < |LogoStages| {
      var langs := LogoStages[k];
      if StagePath(logos, langs) != "" {
        var i := FirstIn(logos, langs).value;
        assert logos[i].filePath == FinalLogoFrom(logos, k);
      } else {
        FinalLogoFromImage(logos, k + 1);
      }
    } else if |logos| > 0 {
      assert logos[0].filePath == FinalLogoFrom(logos, k);
    }
  }

  /** A logo, when there is one, is the image base followed by the non-empty path of one of the logos. */
  lemma LogoFromImage(logos: seq<TmdbImage>)
    ensures LogoOf(logos) == "" || exists i :: 0 <= i < |logos| && logos[i].filePath != "" && LogoOf(logos) == ImageBase + logos[i].filePath
  {
    FinalLogoFromImage(logos, 0);
  }

  /** There is a logo exactly when some stage hits or the first logo has a path. */
  lemma LogoPresent(logos: seq<TmdbImage>)
    ensures LogoOf(logos) != "" <==>
      (exists m :: 0 <= m < |LogoStages| && StageHit(logos, LogoStages[m])) || (|logos| > 0 && logos[0].filePath != "")
  {
    if exists m :: 0 <= m < |LogoStages| && StageHit(logos, LogoStages[m]) {
      var m :| 0 <= m < |LogoStages| && StageHit(logos, LogoStages[m]) && forall n :: 0 <= n < m ==> !StageHit(logos, LogoStages[n]) by {
        var m0 :| 0 <= m0 < |LogoStages| && StageHit(logos, LogoStages[m0]);
        FirstHit(logos, m0);
      }
      StagesMissed(logos, 0, m);
    } else {
      LogoFallback(logos);
    }
  }

  /** Some stage no later than `m0` is the first that hits. */
  lemma FirstHit(logos: seq<TmdbImage>, m0: nat)
    requires m0 < |LogoStages| && StageHit(logos, LogoStages[m0])
    ensures exists m :: 0 <= m < |LogoStages| && StageHit(logos, LogoStages[m]) && forall n :: 0 <= n < m ==> !StageHit(logos, LogoStages[n])
  {
    if StageHit(logos, LogoStages[0]) {
    } else if StageHit(logos, LogoStages[1]) {
    } else if StageHit(logos, LogoStages[2]) {
    } else {
      assert m0 == 3;
    }
  }

  // ------------------------------------------------------------------ release info and runtime

  /** Which TMDB collection a meta request reads: `tv` for series, `movie` for everything else. */
  datatype MediaKind = Movie | Tv

  function KindOf(metaType: string): MediaKind {
    if metaType == "series" then Tv else Movie
  }

  /** The first four code points of a date (its year), or nothing when the date is shorter. */
  function DateYear(date: string): (y: string)
    ensures |date| >= 4 ==> |y| == 4 && date == y + date[4..]
    ensures |date| < 4 ==> y == ""
  {
    if |date| >= 4 then date[..4] else ""
  }

  /** `fmt.Sprintf("%d min", n)`. */
  function Minutes(n: Int64): string {
    Itoa(n) + " min"
  }

  /** The release info, runtime and year the handler puts into the meta. */
  datatype Release = Release(releaseInfo: string, runtime: string, year: string)

  /** A movie: the release year alone, and its runtime when positive. */
  function MovieRelease(releaseDate: string, runtime: Int64): Release {
    var info := DateYear(releaseDate);
    Release(info, if runtime > 0 then Minutes(runtime) else "", info)
  }

  /**
   * A series: `start-end` when the last air year is known and differs from
   * the first, `start-` otherwise, nothing without a first air year; and the
   * first episode run time, whatever its value.
   */
  function ShowRelease(firstAirDate: string, lastAirDate: string, episodeRunTime: seq<Int64>): Release {
    var start := DateYear(firstAirDate);
    var end := DateYear(lastAirDate);
    var info :=
      if start != "" then
        (if end != "" && end != start then start + "-" + end else start + "-")
      else "";
    Release(info, if |episodeRunTime| > 0 then Minutes(episodeRunTime[0]) else "", start)
  }

  function ReleaseOf(kind: MediaKind, releaseDate: string, runtime: Int64, firstAirDate: string, lastAirDate: string, episodeRunTime: seq<Int64>): Release {
    if kind == Movie then MovieRelease(releaseDate, runtime)
    else ShowRelease(firstAirDate, lastAirDate, episodeRunTime)
  }

  /** A runtime string ends in ` min` and reads back as the minute count it was made from. */
  lemma MinutesReadBack(n: Int64)
    ensures HasSuffix(Minutes(n), " min")
    ensures Atoi(TrimSuffix(Minutes(n), " min")) == Some(n)
  {
    var s := Minutes(n);
    assert s[..|s| - 4] == Itoa(n);
    assert s[|s| - 4..] == " min";
    AtoiItoa(n);
  }

  /** A movie's release info is the first four code points of its release date, and is its year. */
  lemma MovieReleaseShape(releaseDate: string, runtime: Int64)
    ensures var r := MovieRelease(releaseDate, runtime);
      r.year == r.releaseInfo &&
      (r.releaseInfo == "" <==> |releaseDate| < 4) &&
      (r.releaseInfo != "" ==> |r.releaseInfo| == 4 && HasPrefix(releaseDate, r.releaseInfo)) &&
      (r.runtime != "" <==> runtime > 0) &&
      (r.runtime != "" ==> Atoi(TrimSuffix(r.runtime, " min")) == Some(runtime))
  {
    MinutesReadBack(runtime);
  }

  /**
   * A series' release info: empty exactly when the first air date is shorter
   * than four code points; otherwise the first air year and a hyphen, followed
   * by the last air year exactly when that is known and differs.
   */
  lemma ShowReleaseShape(firstAirDate: string, lastAirDate: string, episodeRunTime: seq<Int64>)
    ensures var r := ShowRelease(firstAirDate, lastAirDate, episodeRunTime);
      (r.releaseInfo == "" <==> |firstAirDate| < 4) &&
      (r.releaseInfo != "" ==>
        |r.releaseInfo| >= 5 && r.releaseInfo[..4] == firstAirDate[..4] && r.releaseInfo[4] == '-' &&
        r.year == r.releaseInfo[..4] &&
        (|r.releaseInfo| > 5 <==> |lastAirDate| >= 4 && lastAirDate[..4] != firstAirDate[..4]) &&
        (|r.releaseInfo| > 5 ==> r.releaseInfo[5..] == lastAirDate[..4]))
  {
    var r := ShowRelease(firstAirDate, lastAirDate, episodeRunTime);
    if |firstAirDate| >= 4 {
      var start := firstAirDate[..4];
      if |lastAirDate| >= 4 && lastAirDate[..4] != start {
        assert r.releaseInfo == start + "-" + lastAirDate[..4];
        assert r.releaseInfo[..4] == start;
        assert r.releaseInfo[5..] == lastAirDate[..4];
      } else {
        assert r.releaseInfo == start + "-";
      }
    }
  }

  /** A series' runtime is present exactly when it lists an episode run time, and reads back as the first one. */
  lemma ShowRuntime(firstAirDate: string, lastAirDate: string, episodeRunTime: seq<Int64>)
    ensures var r := ShowRelease(firstAirDate, lastAirDate, episodeRunTime);
      (r.runtime != "" <==> |episodeRunTime| > 0) &&
      (|episodeRunTime| > 0 ==> Atoi(TrimSuffix(r.runtime, " min")) == Some(episodeRunTime[0]))
  {
    if |episodeRunTime| > 0 {
      MinutesReadBack(episodeRunTime[0]);
    }
  }
}
