/**
 * `filterPrehrajResults` (prehraj.go:290-348): drop a search hit whose title
 * names release years none of which is the title's own year. The years are the
 * matches of `\b(19|20)\d{2}\b`; the name relevance check that follows is
 * computed but never drops anything.
 */
module YearFilter {
  import opened Text
  import Normalize
  import opened SearchPage

  // ------------------------------------------------------------------ the year pattern

  /** `\b(19|20)\d{2}\b` matches the four code points at `i`: 19xx or 20xx with no ASCII word character on either side. */
  predicate YearAt(s: string, i: int) {
    && 0 <= i && i + 4 <= |s|
    && ((s[i] == '1' && s[i + 1] == '9') || (s[i] == '2' && s[i + 1] == '0'))
    && IsDigit(s[i + 2]) && IsDigit(s[i + 3])
    && (i == 0 || !IsWordChar(s[i - 1]))
    && (i + 4 == |s| || !IsWordChar(s[i + 4]))
  }

  /** The year a match denotes. */
  function YearValue(s: string, i: int): (y: int)
    requires YearAt(s, i)
    ensures 1900 <= y <= 2099
  {
    1000 * DigitValue(s[i]) + 100 * DigitValue(s[i + 1]) + 10 * DigitValue(s[i + 2]) + DigitValue(s[i + 3])
  }

  /** Two matches are at least four code points apart: a match's own digits are word characters. */
  lemma YearsApart(s: string, i: int, j: int)
    requires YearAt(s, i) && i < j < i + 4
    ensures !YearAt(s, j)
  {
    assert IsWordChar(s[j - 1]);
  }

  /** `FindAllString` from position `i`: the leftmost match, then the search goes on after it. */
  function YearTokensFrom(s: string, i: nat): seq<string>
    requires i <= |s|
    decreases |s| - i
  {
    if i + 4 > |s| then []
    else if YearAt(s, i) then [s[i..i + 4]] + YearTokensFrom(s, i + 4)
    else YearTokensFrom(s, i + 1)
  }

  /** The year strings `yearReg.FindAllString(title, -1)` returns. */
  function YearTokens(s: string): seq<string> {
    YearTokensFrom(s, 0)
  }

  /** The scan finds exactly the matches at or after `i`. */
  lemma {:induction false} YearTokensFromExact(s: string, i: nat)
    requires i <= |s|
    ensures forall t :: t in YearTokensFrom(s, i) <==> exists j :: i <= j && YearAt(s, j) && t == s[j..j + 4]
    decreases |s| - i
  {
    if i + 4 > |s| {
      forall j | i <= j ensures !YearAt(s, j) { }
    } else if YearAt(s, i) {
      YearTokensFromExact(s, i + 4);
      forall j | i < j < i + 4 ensures !YearAt(s, j) {
        YearsApart(s, i, j);
      }
    } else {
      YearTokensFromExact(s, i + 1);
    }
  }

  /** What `strconv.Atoi` makes of a year string is the year it denotes. */
  lemma YearTokenValue(s: string, i: int)
    requires YearAt(s, i)
    ensures AtoiOrZero(s[i..i + 4]) == YearValue(s, i)
  {
    var t := s[i..i + 4];
    var t1, t2, t3 := [s[i]], [s[i], s[i + 1]], [s[i], s[i + 1], s[i + 2]];
    assert t[0] == s[i] && t[1] == s[i + 1] && t[2] == s[i + 2] && t[3] == s[i + 3];
    assert t[..3] == t3;
    assert t1[..0] == [] && t2[..1] == t1 && t3[..2] == t2;
    assert DigitsValue(t1) == DigitValue(s[i]);
    assert DigitsValue(t2) == DigitsValue(t1) * 10 + DigitValue(s[i + 1]);
    assert DigitsValue(t3) == DigitsValue(t2) * 10 + DigitValue(s[i + 2]);
    assert DigitsValue(t) == DigitsValue(t3) * 10 + DigitValue(s[i + 3]);
  }

  // ------------------------------------------------------------------ the filter

  /** The year the filter compares with: 0 without one, else what `strconv.Atoi` makes of it, errors ignored. */
  function TargetYear(metaYear: string): int {
    if metaYear == "" then 0 else AtoiOrZero(metaYear)
  }

  /** The filter keeps a title when no year is sought, when the title names no year, or when one of its years is the one sought. */
  predicate KeepByYear(title: string, target: int) {
    var years := YearTokens(title);
    target <= 0 || years == [] || exists k :: 0 <= k < |years| && AtoiOrZero(years[k]) == target
  }

  /** The same test stated on the matches of the pattern. */
  lemma KeepByYearIff(title: string, target: int)
    ensures KeepByYear(title, target) <==>
      target <= 0 || (forall i :: !YearAt(title, i)) || exists i :: YearAt(title, i) && YearValue(title, i) == target
  {
    var years := YearTokens(title);
    YearTokensFromExact(title, 0);
    forall i | YearAt(title, i) ensures years != [] {
      assert title[i..i + 4] in years;
    }
    if years != [] {
      assert years[0] in years;
    }
    if exists k :: 0 <= k < |years| && AtoiOrZero(years[k]) == target {
      var k :| 0 <= k < |years| && AtoiOrZero(years[k]) == target;
      assert years[k] in years;
      var i :| 0 <= i && YearAt(title, i) && years[k] == title[i..i + 4];
      YearTokenValue(title, i);
    }
    if exists i :: YearAt(title, i) && YearValue(title, i) == target {
      var i :| YearAt(title, i) && YearValue(title, i) == target;
      YearTokenValue(title, i);
      assert title[i..i + 4] in years;
      var k :| 0 <= k < |years| && years[k] == title[i..i + 4];
    }
  }

  /** The hits the filter returns, in their original order. */
  function FilterByYear(results: seq<PrehrajResult>, target: int): seq<PrehrajResult>
    decreases |results|
  {
    if results == [] then []
    else
      var n := |results| - 1;
      FilterByYear(results[..n], target) + (if KeepByYear(results[n].title, target) then [results[n]] else [])
  }

  /** A hit is returned exactly when it was given and its title passes the year test. */
  lemma {:induction false} FilterByYearMembers(results: seq<PrehrajResult>, target: int)
    ensures forall r :: r in FilterByYear(results, target) <==> r in results && KeepByYear(r.title, target)
    decreases |results|
  {
    if results != [] {
      var n := |results| - 1;
      FilterByYearMembers(results[..n], target);
      assert results == results[..n] + [results[n]];
    }
  }

  /** Filtering commutes with concatenation: hits keep their relative order and each batch is judged on its own. */
  lemma {:induction false} FilterByYearAppend(a: seq<PrehrajResult>, b: seq<PrehrajResult>, target: int)
    ensures FilterByYear(a + b, target) == FilterByYear(a, target) + FilterByYear(b, target)
    decreases |b|
  {
    if b == [] {
      assert a + b == a;
    } else {
      var n := |b| - 1;
      FilterByYearAppend(a, b[..n], target);
      assert (a + b)[..|a| + n] == a + b[..n];
      assert (a + b)[|a| + n] == b[n];
    }
  }

  /** Without a year to look for, nothing is dropped. */
  lemma {:induction false} FilterByYearNoTarget(results: seq<PrehrajResult>, target: int)
    requires target <= 0
    ensures FilterByYear(results, target) == results
    decreases |results|
  {
    if results != [] {
      var n := |results| - 1;
      FilterByYearNoTarget(results[..n], target);
      assert results[..n] + [results[n]] == results;
    }
  }

  /** The year loop: whether one of the detected years equals the target. */
  method YearMatch(detectedYears: seq<string>, target: int) returns (yearMatch: bool)
    ensures yearMatch <==> exists k :: 0 <= k < |detectedYears| && AtoiOrZero(detectedYears[k]) == target
  {
    yearMatch := false;
    for k := 0 to |detectedYears|
      invariant !yearMatch
      invariant forall j :: 0 <= j < k ==> AtoiOrZero(detectedYears[j]) != target
    {
      var y := AtoiOrZero(detectedYears[k]);
      if y == target {
        yearMatch := true;
        return;
      }
    }
  }

  /** A name is relevant to a title when the name's filter key occurs in the title's. */
  predicate Relevant(title: string, name: string) {
    Contains(Normalize.FilterKey(title), Normalize.FilterKey(name))
  }

  /** The title relevance check: whether some name is relevant to the title. */
  method RelevanceCheck(title: string, metaNames: seq<string>) returns (matchFound: bool)
    ensures matchFound <==> exists k :: 0 <= k < |metaNames| && Relevant(title, metaNames[k])
  {
    matchFound := false;
    var resTitleNorm := Normalize.NormalizeForFilter(title);
    for k := 0 to |metaNames|
      invariant !matchFound
      invariant forall j :: 0 <= j < k ==> !Relevant(title, metaNames[j])
    {
      var nameNorm := Normalize.NormalizeForFilter(metaNames[k]);
      if Contains(resTitleNorm, nameNorm) {
        assert Relevant(title, metaNames[k]);
        matchFound := true;
        return;
      }
    }
  }

  /** Whether one hit survives the year check (the body of the loop of `filterPrehrajResults`). */
  method KeepResult(res: PrehrajResult, targetYear: int, metaNames: seq<string>) returns (keep: bool)
    ensures keep == KeepByYear(res.title, targetYear)
  {
    if targetYear > 0 {
      var detectedYears := YearTokens(res.title);
      if |detectedYears| > 0 {
        var yearMatch := YearMatch(detectedYears, targetYear);
        if !yearMatch {
          return false;
        }
      }
    }
    if |metaNames| > 0 {
      // The outcome is not used: a title unrelated to every name is kept all the same.
      var matchFound := RelevanceCheck(res.title, metaNames);
    }
    return true;
  }

  /** `filterPrehrajResults`: the hits whose titles pass the year check, in order; the names never matter. */
  method FilterResults(results: seq<PrehrajResult>, metaYear: string, metaNames: seq<string>) returns (filtered: seq<PrehrajResult>)
    ensures filtered == FilterByYear(results, TargetYear(metaYear))
  {
    var targetYear := 0;
    if metaYear != "" {
      targetYear := AtoiOrZero(metaYear);
    }
    filtered := [];
    for i := 0 to |results|
      invariant filtered == FilterByYear(results[..i], targetYear)
    {
      assert results[..i + 1][..i] == results[..i];
      var keep := KeepResult(results[i], targetYear, metaNames);
      if keep {
        filtered := filtered + [results[i]];
      }
    }
    assert results[..|results|] == results;
  }
}
