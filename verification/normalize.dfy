/**
 * The two title normalisers: `normalizeString` (query variants, main.go) and
 * `normalizeStringForFilter` (relevance check, prehraj.go).
 */
module Normalize {
  import opened Text

  /** One `strings.ReplaceAll(s, from, to)` step of a replacement table. */
  datatype Replacement = Replacement(from: string, to: string)

  /**
   * The table of `normalizeString`. The thirty diacritic pairs are the source's
   * literals exactly as stored (each a two-code-point sequence, the Mac Roman
   * reading of a UTF-8 letter), then `:`, `-` and `.` become a space.
   */
  const TitleFolds: seq<Replacement> := [
      Replacement("\U{221A}\U{00B0}", "a"), Replacement("\U{0192}\U{00E7}", "c"), Replacement("\U{0192}\U{00E8}", "d"), Replacement("\U{221A}\U{00A9}", "e"), Replacement("\U{0192}\U{00F5}", "e"),
      Replacement("\U{221A}\U{2260}", "i"), Replacement("\U{2248}\U{00E0}", "n"), Replacement("\U{221A}\U{2265}", "o"), Replacement("\U{2248}\U{00F4}", "r"), Replacement("\U{2248}\U{00B0}", "s"),
      Replacement("\U{2248}\U{2022}", "t"), Replacement("\U{221A}\U{222B}", "u"), Replacement("\U{2248}\U{00D8}", "u"), Replacement("\U{221A}\U{03A9}", "y"), Replacement("\U{2248}\U{00E6}", "z"),
      Replacement("\U{221A}\U{00C5}", "A"), Replacement("\U{0192}\U{00E5}", "C"), Replacement("\U{0192}\U{00E9}", "D"), Replacement("\U{221A}\U{00E2}", "E"), Replacement("\U{0192}\U{00F6}", "E"),
      Replacement("\U{221A}\U{00E7}", "I"), Replacement("\U{2248}\U{00E1}", "N"), Replacement("\U{221A}\U{00EC}", "O"), Replacement("\U{2248}\U{00F2}", "R"), Replacement("\U{2248}\U{2020}", "S"),
      Replacement("\U{2248}\U{00A7}", "T"), Replacement("\U{221A}\U{00F6}", "U"), Replacement("\U{2248}\U{00C6}", "U"), Replacement("\U{221A}\U{00F9}", "Y"), Replacement("\U{2248}\U{03A9}", "Z"),
      Replacement(":", " "), Replacement("-", " "), Replacement(".", " ")
    ]

  /** The table of `normalizeStringForFilter`: lower-case Czech and Slovak letters, then `.`, `_`, `-`, `:` to a space. */
  const FilterFolds: seq<Replacement> := [
      Replacement("\U{00E1}", "a"), Replacement("\U{010D}", "c"), Replacement("\U{010F}", "d"), Replacement("\U{00E9}", "e"), Replacement("\U{011B}", "e"),
      Replacement("\U{00ED}", "i"), Replacement("\U{0148}", "n"), Replacement("\U{00F3}", "o"), Replacement("\U{0159}", "r"), Replacement("\U{0161}", "s"),
      Replacement("\U{0165}", "t"), Replacement("\U{00FA}", "u"), Replacement("\U{016F}", "u"), Replacement("\U{00FD}", "y"), Replacement("\U{017E}", "z"),
      Replacement(".", " "), Replacement("_", " "), Replacement("-", " "), Replacement(":", " ")
    ]

  /** The text after the table's replacements, applied in table order. */
  function ApplyAll(s: string, table: seq<Replacement>): string
    decreases |table|
  {
    if table == [] then s
    else
      var n := |table| - 1;
      ReplaceAll(ApplyAll(s, table[..n]), table[n].from, table[n].to)
  }

  /** A code point that no replacement produces and the text lacks stays out. */
  lemma {:induction false} ApplyAllKeepsOut(s: string, table: seq<Replacement>, c: char)
    requires c !in s
    requires forall j :: 0 <= j < |table| ==> c !in table[j].to
    ensures c !in ApplyAll(s, table)
    decreases |table|
  {
    if table != [] {
      var n := |table| - 1;
      ApplyAllKeepsOut(s, table[..n], c);
      ReplaceAllKeepsOut(ApplyAll(s, table[..n]), table[n].from, table[n].to, c);
    }
  }

  /** Once `[c]` is replaced by text without `c`, and no later replacement produces `c`, no `c` is left. */
  lemma {:induction false} ApplyAllRemoves(s: string, table: seq<Replacement>, k: nat, c: char)
    requires k < |table| && table[k].from == [c]
    requires forall j :: k <= j < |table| ==> c !in table[j].to
    ensures c !in ApplyAll(s, table)
    decreases |table|
  {
    var n := |table| - 1;
    if k == n {
      ReplaceAllRemoves(ApplyAll(s, table[..n]), c, table[n].to);
    } else {
      ApplyAllRemoves(s, table[..n], k, c);
      ReplaceAllKeepsOut(ApplyAll(s, table[..n]), table[n].from, table[n].to, c);
    }
  }

  /** The `for strings.Contains(s, "  ")` loop: halve runs of two spaces until none is left. */
  function CollapseDoubleSpaces(s: string): (r: string)
    ensures !Contains(r, "  ")
    decreases |s|
  {
    if Contains(s, "  ") then
      ReplaceAllShrinks(s, "  ", " ");
      CollapseDoubleSpaces(ReplaceAll(s, "  ", " "))
    else s
  }

  /** Collapsing spaces brings in no code point other than a space. */
  lemma {:induction false} CollapseKeepsOut(s: string, c: char)
    requires c !in s && c != ' '
    ensures c !in CollapseDoubleSpaces(s)
    decreases |s|
  {
    if Contains(s, "  ") {
      ReplaceAllShrinks(s, "  ", " ");
      ReplaceAllKeepsOut(s, "  ", " ", c);
      CollapseKeepsOut(ReplaceAll(s, "  ", " "), c);
    }
  }

  /** What `normalizeString` returns. */
  function NormalizedTitle(s: string): string {
    TrimSpace(CollapseDoubleSpaces(ApplyAll(s, TitleFolds)))
  }

  /** The separators `normalizeString` turns into spaces. */
  predicate NoTitleSeparators(s: string) {
    ':' !in s && '-' !in s && '.' !in s
  }

  /** A normalised title has no `:`, `-` or `.`, no two spaces in a row, and no white space at either end. */
  lemma NormalizedTitleIsClean(s: string)
    ensures NoTitleSeparators(NormalizedTitle(s))
    ensures !Contains(NormalizedTitle(s), "  ")
    ensures IsTrimmed(NormalizedTitle(s))
  {
    var folded := ApplyAll(s, TitleFolds);
    var collapsed := CollapseDoubleSpaces(folded);
    ApplyAllRemoves(s, TitleFolds, 30, ':');
    ApplyAllRemoves(s, TitleFolds, 31, '-');
    ApplyAllRemoves(s, TitleFolds, 32, '.');
    CollapseKeepsOut(folded, ':');
    CollapseKeepsOut(folded, '-');
    CollapseKeepsOut(folded, '.');
    TrimSpaceChars(collapsed);
    TrimSpaceNotContains(collapsed, "  ");
  }

  /** `normalizeString` (main.go:612-631): the table's replacements, the double-space loop, then `strings.TrimSpace`. */
  method NormalizeString(s: string) returns (r: string)
    ensures r == NormalizedTitle(s)
    ensures NoTitleSeparators(r) && !Contains(r, "  ") && IsTrimmed(r)
  {
    r := s;
    for i := 0 to |TitleFolds|
      invariant r == ApplyAll(s, TitleFolds[..i])
    {
      assert TitleFolds[..i + 1][..i] == TitleFolds[..i];
      r := ReplaceAll(r, TitleFolds[i].from, TitleFolds[i].to);
    }
    assert TitleFolds[..|TitleFolds|] == TitleFolds;
    while Contains(r, "  ")
      invariant CollapseDoubleSpaces(r) == CollapseDoubleSpaces(ApplyAll(s, TitleFolds))
      decreases |r|
    {
      ReplaceAllShrinks(r, "  ", " ");
      r := ReplaceAll(r, "  ", " ");
    }
    r := TrimSpace(r);
    NormalizedTitleIsClean(s);
  }

  // ------------------------------------------------------------ relevance-filter form

  /** No upper-case letter of the blocks `LowerChar` covers. */
  predicate IsLowerCase(s: string) {
    forall c :: c in s ==> LowerChar(c) == c
  }

  /** What `normalizeStringForFilter` returns. */
  function FilterKey(s: string): string {
    Join(Fields(ApplyAll(ToLower(s), FilterFolds)), " ")
  }

  /** The separators `normalizeStringForFilter` turns into spaces. */
  predicate NoFilterSeparators(s: string) {
    '.' !in s && '_' !in s && '-' !in s && ':' !in s
  }

  /** Every replacement text of the filter table is lower-case. */
  lemma FilterFoldsLower()
    ensures forall j :: 0 <= j < |FilterFolds| ==> IsLowerCase(FilterFolds[j].to)
  {
    forall j | 0 <= j < |FilterFolds| ensures IsLowerCase(FilterFolds[j].to) {
      assert |FilterFolds[j].to| == 1;
      var c := FilterFolds[j].to[0];
      assert c == ' ' || 'a' <= c <= 'z';
    }
  }

  /** A filter key is lower-case. */
  lemma FilterKeyIsLower(s: string)
    ensures IsLowerCase(FilterKey(s))
  {
    var lower := ToLower(s);
    var folded := ApplyAll(lower, FilterFolds);
    var words := Fields(folded);
    FilterFoldsLower();
    forall c | LowerChar(c) != c ensures c !in FilterKey(s) {
      if c in lower {
        var i :| 0 <= i < |lower| && lower[i] == c;
        LowerCharIdempotent(s[i]);
      }
      ApplyAllKeepsOut(lower, FilterFolds, c);
      FieldsLack(folded, c);
      JoinLacks(words, " ", c);
    }
  }

  lemma SeparatorGone(s: string, k: nat, c: char)
    requires k < |FilterFolds| && FilterFolds[k].from == [c] && c != ' '
    requires forall j :: k <= j < |FilterFolds| ==> FilterFolds[j].to == " "
    ensures c !in FilterKey(s)
  {
    var folded := ApplyAll(ToLower(s), FilterFolds);
    ApplyAllRemoves(ToLower(s), FilterFolds, k, c);
    FieldsLack(folded, c);
    JoinLacks(Fields(folded), " ", c);
  }

  /** A filter key has none of `.`, `_`, `-`, `:`. */
  lemma FilterKeyHasNoSeparators(s: string)
    ensures NoFilterSeparators(FilterKey(s))
  {
    SeparatorGone(s, 15, '.');
    SeparatorGone(s, 16, '_');
    SeparatorGone(s, 17, '-');
    SeparatorGone(s, 18, ':');
  }

  /** A filter key is lower-case, has none of `.`, `_`, `-`, `:`, and is words joined by single spaces. */
  lemma FilterKeyIsClean(s: string)
    ensures IsLowerCase(FilterKey(s))
    ensures NoFilterSeparators(FilterKey(s))
    ensures SingleSpaced(FilterKey(s))
  {
    FilterKeyIsLower(s);
    FilterKeyHasNoSeparators(s);
    JoinWordsSingleSpaced(Fields(ApplyAll(ToLower(s), FilterFolds)));
  }

  /** `normalizeStringForFilter` (prehraj.go:350-362): lower-case, the table's replacements, then `strings.Fields` joined by one space. */
  method NormalizeForFilter(s: string) returns (r: string)
    ensures r == FilterKey(s)
    ensures IsLowerCase(r) && NoFilterSeparators(r) && SingleSpaced(r)
  {
    var t := ToLower(s);
    for i := 0 to |FilterFolds|
      invariant t == ApplyAll(ToLower(s), FilterFolds[..i])
    {
      assert FilterFolds[..i + 1][..i] == FilterFolds[..i];
      t := ReplaceAll(t, FilterFolds[i].from, FilterFolds[i].to);
    }
    assert FilterFolds[..|FilterFolds|] == FilterFolds;
    r := Join(Fields(t), " ");
    FilterKeyIsClean(s);
  }
}
