/**
 * The search queries the stream handler sends to Prehraj.to for one title
 * (main.go:694-784): name variations, the year and episode suffix, then
 * trimming and de-duplication.
 */
module Queries {
  import opened Text
  import opened Normalize
  import opened FirstSeen

  /** The fields of a title's metadata that the query builder reads. */
  datatype Meta = Meta(name: string, originalName: string, year: string)

  /** The names searched for: the localised name, then the original name when it is set and differs. */
  function SearchNames(m: Meta): (names: seq<string>)
    ensures 1 <= |names| <= 2 && names[0] == m.name
    ensures |names| == 2 <==> m.originalName != "" && m.originalName != m.name
    ensures |names| == 2 ==> names[1] == m.originalName
  {
    [m.name] + (if m.originalName != "" && m.originalName != m.name then [m.originalName] else [])
  }

  /** What `addVariations(name)` appends: the name, its normalised form if different, and the name with `:` blanked if it has one. */
  function Variations(name: string): seq<string> {
    [name]
    + (if NormalizedTitle(name) != name then [NormalizedTitle(name)] else [])
    + (if Contains(name, ":") then [ReplaceAll(name, ":", " ")] else [])
  }

  /**
   * The name is searched first; every further variation differs from it and
   * has no `:`; and one is present exactly when normalising changes the name
   * or the name has a `:`.
   */
  lemma VariationsShape(name: string)
    ensures 1 <= |Variations(name)| <= 3 && Variations(name)[0] == name
    ensures |Variations(name)| > 1 <==> NormalizedTitle(name) != name || ':' in name
    ensures forall i :: 1 <= i < |Variations(name)| ==> Variations(name)[i] != name && ':' !in Variations(name)[i]
  {
    NormalizedTitleIsClean(name);
    ContainsChar(name, ':');
    if ':' in name {
      ReplaceAllRemoves(name, ':', " ");
    }
  }

  /** The `addVariations` closure, with the slice it appends to passed in and returned. */
  method AddVariations(queries: seq<string>, name: string) returns (out: seq<string>)
    ensures out == queries + Variations(name)
  {
    out := queries + [name];
    var norm := NormalizeString(name);
    if norm != name {
      out := out + [norm];
    }
    assert out == queries + [name] + (if NormalizedTitle(name) != name then [NormalizedTitle(name)] else []);
    if Contains(name, ":") {
      var replacedColon := ReplaceAll(name, ":", " ");
      out := out + [replacedColon];
    }
  }

  /** The variations of every name, in order. */
  function AllVariations(names: seq<string>): seq<string>
    decreases |names|
  {
    if names == [] then [] else AllVariations(names[..|names| - 1]) + Variations(names[|names| - 1])
  }

  /** ` SxxEyy` (two-digit zero-padded numbers) when both season and episode are given; otherwise empty. */
  function EpisodeSuffix(season: string, episode: string): string {
    if season != "" && episode != "" then
      " S" + Pad2(AtoiOrZero(season)) + "E" + Pad2(AtoiOrZero(episode))
    else ""
  }

  /** The year list: the title's year when it has one. */
  function Years(year: string): seq<string> {
    if year != "" then [year] else []
  }

  /** `q + " " + y + suffix` for every year `y`, in order. */
  function YearForms(q: string, years: seq<string>, suffix: string): seq<string>
    decreases |years|
  {
    if years == [] then []
    else YearForms(q, years[..|years| - 1], suffix) + [q + " " + years[|years| - 1] + suffix]
  }

  /** `finalQueries`: for each query, the query with the suffix, then its year forms. */
  function Combine(qs: seq<string>, years: seq<string>, suffix: string): seq<string>
    decreases |qs|
  {
    if qs == [] then []
    else
      var q := qs[|qs| - 1];
      Combine(qs[..|qs| - 1], years, suffix) + [q + suffix] + YearForms(q, years, suffix)
  }

  /** Each entry trimmed, empty ones dropped. */
  function Cleaned(qs: seq<string>): seq<string>
    decreases |qs|
  {
    if qs == [] then []
    else
      var t := TrimSpace(qs[|qs| - 1]);
      Cleaned(qs[..|qs| - 1]) + (if t != "" then [t] else [])
  }

  /** The key under which queries are de-duplicated: the query text itself. */
  function Identity(s: string): string { s }

  /** `finalQueries` before trimming. */
  function RawQueries(m: Meta, season: string, episode: string): seq<string> {
    Combine(AllVariations(SearchNames(m)), Years(m.year), EpisodeSuffix(season, episode))
  }

  /** `dedupedQueries`: the trimmed, non-empty raw queries, each kept at its first appearance. */
  function SearchQueries(m: Meta, season: string, episode: string): seq<string> {
    DedupBy(Cleaned(RawQueries(m, season, episode)), Identity)
  }

  // ------------------------------------------------------------------ layout of the raw queries

  lemma {:induction false} YearFormsLayout(q: string, years: seq<string>, suffix: string)
    ensures |YearForms(q, years, suffix)| == |years|
    ensures forall j :: 0 <= j < |years| ==> YearForms(q, years, suffix)[j] == q + " " + years[j] + suffix
    decreases |years|
  {
    if years != [] {
      YearFormsLayout(q, years[..|years| - 1], suffix);
    }
  }

  lemma {:induction false} CombineWithYearLength(qs: seq<string>, year: string, suffix: string)
    ensures |Combine(qs, [year], suffix)| == 2 * |qs|
    decreases |qs|
  {
    if qs != [] {
      CombineWithYearLength(qs[..|qs| - 1], year, suffix);
      YearFormsLayout(qs[|qs| - 1], [year], suffix);
    }
  }

  lemma {:induction false} CombineWithYearAt(qs: seq<string>, year: string, suffix: string, i: nat)
    requires i < |qs|
    ensures |Combine(qs, [year], suffix)| == 2 * |qs|
    ensures Combine(qs, [year], suffix)[2 * i] == qs[i] + suffix
    ensures Combine(qs, [year], suffix)[2 * i + 1] == qs[i] + " " + year + suffix
    decreases |qs|
  {
    var n := |qs| - 1;
    var c := Combine(qs[..n], [year], suffix);
    CombineWithYearLength(qs[..n], year, suffix);
    assert YearForms(qs[n], [year], suffix) == [qs[n] + " " + year + suffix] by {
      assert [year][..0] == [];
    }
    assert Combine(qs, [year], suffix) == c + [qs[n] + suffix] + [qs[n] + " " + year + suffix];
    if i < n {
      CombineWithYearAt(qs[..n], year, suffix, i);
      assert qs[..n][i] == qs[i];
    }
  }

  /** With a year, each query gives two raw queries in a row: without the year, then with it. */
  lemma CombineWithYear(qs: seq<string>, year: string, suffix: string)
    ensures |Combine(qs, [year], suffix)| == 2 * |qs|
    ensures forall i :: 0 <= i < |qs| ==> Combine(qs, [year], suffix)[2 * i] == qs[i] + suffix
    ensures forall i :: 0 <= i < |qs| ==> Combine(qs, [year], suffix)[2 * i + 1] == qs[i] + " " + year + suffix
  {
    CombineWithYearLength(qs, year, suffix);
    forall i | 0 <= i < |qs|
      ensures Combine(qs, [year], suffix)[2 * i] == qs[i] + suffix
      ensures Combine(qs, [year], suffix)[2 * i + 1] == qs[i] + " " + year + suffix
    {
      CombineWithYearAt(qs, year, suffix, i);
    }
  }

  /** Without a year, the raw queries are the queries with the suffix, one for one. */
  lemma {:induction false} CombineNoYear(qs: seq<string>, suffix: string)
    ensures |Combine(qs, [], suffix)| == |qs|
    ensures forall i :: 0 <= i < |qs| ==> Combine(qs, [], suffix)[i] == qs[i] + suffix
    decreases |qs|
  {
    if qs != [] {
      var n := |qs| - 1;
      CombineNoYear(qs[..n], suffix);
      var c := Combine(qs[..n], [], suffix);
      assert Combine(qs, [], suffix) == c + [qs[n] + suffix];
      forall i | 0 <= i < n ensures Combine(qs, [], suffix)[i] == qs[i] + suffix {
        assert qs[..n][i] == qs[i];
      }
    }
  }

  lemma AllVariationsOfNames(m: Meta)
    ensures AllVariations(SearchNames(m)) ==
      if m.originalName != "" && m.originalName != m.name then Variations(m.name) + Variations(m.originalName)
      else Variations(m.name)
  {
    var names := SearchNames(m);
    assert AllVariations(names[..1]) == Variations(m.name) by {
      assert names[..1][..0] == [];
    }
    if |names| == 2 {
      assert names[..1] == [m.name];
    } else {
      assert names[..1] == names;
    }
  }

  // ------------------------------------------------------------------ trimming and de-duplication

  /** What is kept is non-empty and trimmed. */
  lemma {:induction false} CleanedClean(qs: seq<string>)
    ensures forall i :: 0 <= i < |Cleaned(qs)| ==> Cleaned(qs)[i] != "" && IsTrimmed(Cleaned(qs)[i])
    decreases |qs|
  {
    if qs != [] {
      var n := |qs| - 1;
      CleanedClean(qs[..n]);
      var prev := Cleaned(qs[..n]);
      forall i | 0 <= i < |prev| ensures Cleaned(qs)[i] == prev[i] { }
    }
  }

  /** Every trimmed, non-empty raw entry is kept. */
  lemma {:induction false} CleanedKeeps(qs: seq<string>, k: nat)
    requires k < |qs| && TrimSpace(qs[k]) != ""
    ensures TrimSpace(qs[k]) in Cleaned(qs)
    decreases |qs|
  {
    var n := |qs| - 1;
    var prev := Cleaned(qs[..n]);
    var t := TrimSpace(qs[n]);
    if k < n {
      CleanedKeeps(qs[..n], k);
      assert qs[..n][k] == qs[k];
      assert Cleaned(qs) == prev + (if t != "" then [t] else []);
    } else {
      assert k == n && t != "";
      assert Cleaned(qs) == Cleaned(qs[..n]) + [t];
    }
  }

  /** Every kept entry is a trimmed raw entry. */
  lemma {:induction false} CleanedFrom(qs: seq<string>, c: string)
    requires c in Cleaned(qs)
    ensures exists k :: 0 <= k < |qs| && c == TrimSpace(qs[k])
    decreases |qs|
  {
    var n := |qs| - 1;
    if c in Cleaned(qs[..n]) {
      CleanedFrom(qs[..n], c);
      var k :| 0 <= k < n && c == TrimSpace(qs[..n][k]);
      assert qs[..n][k] == qs[k];
    } else {
      assert c == TrimSpace(qs[n]);
    }
  }

  /** After trimming and de-duplication, a text is present exactly when it is a trimmed, non-empty raw entry. */
  lemma DedupCleanedExact(raw: seq<string>, q: string)
    ensures q in DedupBy(Cleaned(raw), Identity) <==>
      q != "" && exists k :: 0 <= k < |raw| && q == TrimSpace(raw[k])
  {
    var c := Cleaned(raw);
    var d := DedupBy(c, Identity);
    DedupByKeys(c, Identity);
    if q in d {
      var a :| 0 <= a < |d| && d[a] == q;
      assert Identity(d[a]) in KeySet(d, Identity);
      var i :| 0 <= i < |c| && Identity(c[i]) == q;
      CleanedClean(raw);
      assert c[i] in c;
      CleanedFrom(raw, q);
    }
    if q != "" && exists k :: 0 <= k < |raw| && q == TrimSpace(raw[k]) {
      var k :| 0 <= k < |raw| && q == TrimSpace(raw[k]);
      CleanedKeeps(raw, k);
      var i :| 0 <= i < |c| && c[i] == q;
      assert Identity(c[i]) in KeySet(c, Identity);
      var a :| 0 <= a < |d| && Identity(d[a]) == q;
    }
  }

  /** A queried text appears exactly when it is a trimmed, non-empty raw query. */
  lemma SearchQueriesExact(m: Meta, season: string, episode: string, q: string)
    ensures q in SearchQueries(m, season, episode) <==>
      q != "" && exists k :: 0 <= k < |RawQueries(m, season, episode)| && q == TrimSpace(RawQueries(m, season, episode)[k])
  {
    DedupCleanedExact(RawQueries(m, season, episode), q);
  }

  /** The queries are non-empty, trimmed and pairwise different. */
  lemma SearchQueriesClean(m: Meta, season: string, episode: string)
    ensures forall i :: 0 <= i < |SearchQueries(m, season, episode)| ==>
      SearchQueries(m, season, episode)[i] != "" && IsTrimmed(SearchQueries(m, season, episode)[i])
    ensures forall i, j :: 0 <= i < j < |SearchQueries(m, season, episode)| ==>
      SearchQueries(m, season, episode)[i] != SearchQueries(m, season, episode)[j]
  {
    var c := Cleaned(RawQueries(m, season, episode));
    CleanedClean(RawQueries(m, season, episode));
    DedupByFirst(c, Identity);
    DedupByDistinct(c, Identity);
  }

  lemma {:induction false} DedupByHead<T, K>(xs: seq<T>, key: T -> K)
    requires xs != []
    ensures DedupBy(xs, key) != [] && DedupBy(xs, key)[0] == xs[0]
    decreases |xs|
  {
    var n := |xs| - 1;
    if n > 0 {
      DedupByHead(xs[..n], key);
    }
  }

  lemma {:induction false} CleanedHead(qs: seq<string>)
    requires qs != [] && TrimSpace(qs[0]) != ""
    ensures Cleaned(qs) != [] && Cleaned(qs)[0] == TrimSpace(qs[0])
    decreases |qs|
  {
    var n := |qs| - 1;
    if n > 0 {
      CleanedHead(qs[..n]);
    }
  }

  /** The raw queries start with the exact name and the suffix. */
  lemma RawQueriesStart(m: Meta, season: string, episode: string)
    ensures RawQueries(m, season, episode) != []
    ensures RawQueries(m, season, episode)[0] == m.name + EpisodeSuffix(season, episode)
  {
    var vs := AllVariations(SearchNames(m));
    AllVariationsOfNames(m);
    VariationsShape(m.name);
    assert vs[0] == m.name;
    var suffix := EpisodeSuffix(season, episode);
    if m.year != "" {
      CombineWithYear(vs, m.year, suffix);
      assert Combine(vs, [m.year], suffix)[2 * 0] == vs[0] + suffix;
    } else {
      CombineNoYear(vs, suffix);
    }
  }

  /** Unless it trims to nothing, the exact name with the suffix is the first query. */
  lemma FirstQueryIsName(m: Meta, season: string, episode: string)
    requires TrimSpace(m.name + EpisodeSuffix(season, episode)) != ""
    ensures SearchQueries(m, season, episode) != []
    ensures SearchQueries(m, season, episode)[0] == TrimSpace(m.name + EpisodeSuffix(season, episode))
  {
    var raw := RawQueries(m, season, episode);
    RawQueriesStart(m, season, episode);
    CleanedHead(raw);
    DedupByHead(Cleaned(raw), Identity);
  }

  /** The suffix computed in the loop body: both numbers parsed with their errors ignored, then `" S%02dE%02d"`. */
  method FormatSuffix(season: string, episode: string) returns (suffix: string)
    ensures suffix == EpisodeSuffix(season, episode)
  {
    suffix := "";
    if season != "" && episode != "" {
      var sInt := AtoiOrZero(season);
      var eInt := AtoiOrZero(episode);
      suffix := " S" + Pad2(sInt) + "E" + Pad2(eInt);
    }
  }

  /** The inner loop over the years: `q + " " + y + suffix` appended for each year `y`. */
  method AppendYearForms(acc: seq<string>, q: string, years: seq<string>, suffix: string) returns (out: seq<string>)
    ensures out == acc + YearForms(q, years, suffix)
  {
    out := acc;
    for j := 0 to |years|
      invariant out == acc + YearForms(q, years[..j], suffix)
    {
      assert years[..j + 1][..j] == years[..j];
      out := out + [q + " " + years[j] + suffix];
    }
    assert years[..|years|] == years;
  }

  /** One more query adds its suffixed form and its year forms. */
  lemma CombineStep(qs: seq<string>, i: nat, years: seq<string>, suffix: string, before: seq<string>, after: seq<string>)
    requires i < |qs|
    requires before == Combine(qs[..i], years, suffix)
    requires after == before + [qs[i] + suffix] + YearForms(qs[i], years, suffix)
    ensures after == Combine(qs[..i + 1], years, suffix)
  {
    assert qs[..i + 1][..i] == qs[..i];
    assert qs[..i + 1][i] == qs[i];
  }

  /** The loop that builds `finalQueries`: each query with the episode suffix, then with each year and the suffix. */
  method CombineQueries(queries: seq<string>, years: seq<string>, season: string, episode: string)
    returns (finalQueries: seq<string>)
    ensures finalQueries == Combine(queries, years, EpisodeSuffix(season, episode))
  {
    finalQueries := [];
    for i := 0 to |queries|
      invariant finalQueries == Combine(queries[..i], years, EpisodeSuffix(season, episode))
    {
      var q := queries[i];
      var suffix := FormatSuffix(season, episode);
      ghost var before := finalQueries;
      finalQueries := finalQueries + [q + suffix];
      finalQueries := AppendYearForms(finalQueries, q, years, suffix);
      CombineStep(queries, i, years, suffix, before, finalQueries);
    }
    assert queries[..|queries|] == queries;
  }

  /** The de-duplication loop: trim each query and keep it if it is non-empty and not seen before. */
  method DedupQueries(finalQueries: seq<string>) returns (deduped: seq<string>)
    ensures deduped == DedupBy(Cleaned(finalQueries), Identity)
  {
    var uniqueQueries: set<string> := {};
    deduped := [];
    for i := 0 to |finalQueries|
      invariant deduped == DedupBy(Cleaned(finalQueries[..i]), Identity)
      invariant uniqueQueries == KeySet(deduped, Identity)
    {
      var q := TrimSpace(finalQueries[i]);
      CleanedStep(finalQueries, i);
      if q !in uniqueQueries && q != "" {
        KeySetSnoc(deduped, q, Identity);
        uniqueQueries := uniqueQueries + {q};
        deduped := deduped + [q];
      }
    }
    assert finalQueries[..|finalQueries|] == finalQueries;
  }

  /** One step of the de-duplication loop, in terms of the specification. */
  lemma CleanedStep(qs: seq<string>, i: nat)
    requires i < |qs|
    ensures var c := Cleaned(qs[..i]); var q := TrimSpace(qs[i]);
      DedupBy(Cleaned(qs[..i + 1]), Identity) ==
        if q == "" || q in KeySet(DedupBy(c, Identity), Identity) then DedupBy(c, Identity)
        else DedupBy(c, Identity) + [q]
  {
    var c := Cleaned(qs[..i]);
    var q := TrimSpace(qs[i]);
    assert qs[..i + 1][..i] == qs[..i];
    if q != "" {
      assert Cleaned(qs[..i + 1]) == c + [q];
      assert (c + [q])[..|c|] == c;
    } else {
      assert Cleaned(qs[..i + 1]) == c;
    }
  }

  /** The query part of `handleStream`: variations of each name, year and episode forms, then trim and de-duplicate. */
  method BuildQueries(m: Meta, season: string, episode: string) returns (deduped: seq<string>)
    ensures deduped == SearchQueries(m, season, episode)
    ensures forall i :: 0 <= i < |deduped| ==> deduped[i] != "" && IsTrimmed(deduped[i])
    ensures forall i, j :: 0 <= i < j < |deduped| ==> deduped[i] != deduped[j]
  {
    var queries: seq<string> := [];
    queries := AddVariations(queries, m.name);
    if m.originalName != "" && m.originalName != m.name {
      queries := AddVariations(queries, m.originalName);
    }
    AllVariationsOfNames(m);

    var years: seq<string> := [];
    if m.year != "" {
      years := years + [m.year];
    }

    assert queries == AllVariations(SearchNames(m));
    assert years == Years(m.year);
    var finalQueries := CombineQueries(queries, years, season, episode);
    assert finalQueries == RawQueries(m, season, episode);
    deduped := DedupQueries(finalQueries);
    SearchQueriesClean(m, season, episode);
  }
}
