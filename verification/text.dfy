/**
 * The pieces of Go's `strings`, `strconv` and `unicode` packages that the
 * addon relies on, over strings of Unicode code points.
 */
module Text {
  import opened Wrappers

  // ---------------------------------------------------------------- characters

  /** `unicode.IsSpace`: the Latin-1 spaces plus the Unicode White_Space code points. */
  predicate IsSpace(c: char) {
    || c == ' ' || c == '\t' || c == '\n' || c == '\U{000B}' || c == '\U{000C}' || c == '\r'
    || c == '\U{0085}' || c == '\U{00A0}' || c == '\U{1680}'
    || ('\U{2000}' <= c <= '\U{200A}')
    || c == '\U{2028}' || c == '\U{2029}' || c == '\U{202F}' || c == '\U{205F}' || c == '\U{3000}'
  }

  /** `\s` in Go's regular expressions: space, tab, newline, form feed, carriage return. */
  predicate IsRegexSpace(c: char) {
    c == ' ' || c == '\t' || c == '\n' || c == '\U{000C}' || c == '\r'
  }

  /** `\d` in Go's regular expressions. */
  predicate IsDigit(c: char) {
    '0' <= c <= '9'
  }

  /** The ASCII word characters that `\b` looks at. */
  predicate IsWordChar(c: char) {
    IsDigit(c) || ('a' <= c <= 'z') || ('A' <= c <= 'Z') || c == '_'
  }

  // ---------------------------------------------------------------- substrings

  /** `sub` occurs in `s` starting at index `i`. */
  predicate IsAt(s: string, sub: string, i: int) {
    0 <= i && i + |sub| <= |s| && s[i..i + |sub|] == sub
  }

  /** The first occurrence of `sub` at or after `i`, or -1. */
  function IndexFrom(s: string, sub: string, i: nat): (r: int)
    requires i <= |s|
    ensures r == -1 || (i <= r && IsAt(s, sub, r))
    ensures forall j :: i <= j && (r == -1 || j < r) ==> !IsAt(s, sub, j)
    decreases |s| - i
  {
    if IsAt(s, sub, i) then i
    else if i == |s| then -1
    else IndexFrom(s, sub, i + 1)
  }

  /** `strings.Index`. */
  function IndexOf(s: string, sub: string): (r: int)
    ensures r == -1 || IsAt(s, sub, r)
    ensures forall j :: 0 <= j && (r == -1 || j < r) ==> !IsAt(s, sub, j)
  {
    IndexFrom(s, sub, 0)
  }

  /** `strings.Contains`. */
  predicate Contains(s: string, sub: string)
    ensures Contains(s, sub) <==> exists i :: IsAt(s, sub, i)
  {
    IndexOf(s, sub) >= 0
  }

  lemma ContainsChar(s: string, c: char)
    ensures Contains(s, [c]) <==> c in s
  {
    if c in s {
      var i :| 0 <= i < |s| && s[i] == c;
      assert IsAt(s, [c], i);
    }
    if Contains(s, [c]) {
      var i :| IsAt(s, [c], i);
      assert s[i] == s[i..i + 1][0];
    }
  }

  lemma ContainsAt(s: string, sub: string, i: int)
    requires IsAt(s, sub, i)
    ensures Contains(s, sub)
  {
  }

  /** A string without `sub` has no slice containing `sub`. */
  lemma NotContainsSlice(s: string, sub: string, lo: nat, hi: nat)
    requires lo <= hi <= |s|
    requires !Contains(s, sub)
    ensures !Contains(s[lo..hi], sub)
  {
    forall i | IsAt(s[lo..hi], sub, i) ensures IsAt(s, sub, lo + i) {
      var t := s[lo..hi];
      forall k | 0 <= k < |sub| ensures s[lo + i..lo + i + |sub|][k] == sub[k] {
        assert s[lo + i + k] == t[i + k];
      }
    }
  }

  /** A text that lacks the first code point of `sub` does not contain `sub`. */
  lemma NotContainsHead(s: string, sub: string)
    requires sub != [] && sub[0] !in s
    ensures !Contains(s, sub)
  {
    forall i | 0 <= i ensures !IsAt(s, sub, i) {
      if i + |sub| <= |s| {
        assert s[i..i + |sub|][0] == s[i];
      }
    }
  }

  /** Two texts without `sub`, joined where one of them has a code point `sub` lacks, still lack it. */
  lemma NotContainsJoin(x: string, y: string, sub: string)
    requires !Contains(x, sub) && !Contains(y, sub)
    requires (x != [] && x[|x| - 1] !in sub) || (y != [] && y[0] !in sub)
    ensures !Contains(x + y, sub)
  {
    var s := x + y;
    forall i | 0 <= i ensures !IsAt(s, sub, i) {
      if i + |sub| <= |s| {
        var w := s[i..i + |sub|];
        if i + |sub| <= |x| {
          assert w == x[i..i + |sub|];
          assert !IsAt(x, sub, i);
        } else if i >= |x| {
          assert w == y[i - |x|..i - |x| + |sub|];
          assert !IsAt(y, sub, i - |x|);
        } else if x != [] && x[|x| - 1] !in sub {
          assert w[|x| - 1 - i] == x[|x| - 1];
        } else {
          assert w[|x| - i] == y[0];
        }
      }
    }
  }

  /** Nothing before the end of `x` starts an occurrence of `sub` when `x` lacks it and ends in a code point it lacks. */
  lemma NoEarlierOccurrence(x: string, sub: string, rest: string)
    requires !Contains(x, sub)
    requires x == [] || x[|x| - 1] !in sub
    ensures forall i :: 0 <= i < |x| ==> !IsAt(x + rest, sub, i)
  {
    var s := x + rest;
    forall i | 0 <= i < |x| ensures !IsAt(s, sub, i) {
      if i + |sub| <= |s| {
        var w := s[i..i + |sub|];
        if i + |sub| <= |x| {
          assert w == x[i..i + |sub|];
          assert !IsAt(x, sub, i);
        } else {
          assert w[|x| - 1 - i] == x[|x| - 1];
        }
      }
    }
  }

  /** Past the start of `sub` in `sub + y`, nothing starts an occurrence of `sub` when `y` lacks it and starts with a code point it lacks. */
  lemma NoLaterOccurrence(sub: string, y: string)
    requires !Contains(y, sub)
    requires y == [] || y[0] !in sub
    ensures forall i :: i > 0 ==> !IsAt(sub + y, sub, i)
  {
    var s := sub + y;
    forall i | i > 0 ensures !IsAt(s, sub, i) {
      if i + |sub| <= |s| {
        var w := s[i..i + |sub|];
        if i >= |sub| {
          assert w == y[i - |sub|..i];
          assert !IsAt(y, sub, i - |sub|);
        } else {
          assert w[|sub| - i] == y[0];
        }
      }
    }
  }

  /** In `x + sub + y`, with both sides lacking `sub` and the joints made of code points `sub` lacks, `sub` occurs only between them. */
  lemma OnlyOccurrence(x: string, sub: string, y: string)
    requires !Contains(x, sub) && !Contains(y, sub)
    requires x == [] || x[|x| - 1] !in sub
    requires y == [] || y[0] !in sub
    ensures forall i :: IsAt(x + sub + y, sub, i) <==> i == |x|
    ensures IndexOf(x + sub + y, sub) == |x|
  {
    var s := x + sub + y;
    var t := sub + y;
    assert s == x + t;
    assert s[|x|..|x| + |sub|] == sub;
    NoEarlierOccurrence(x, sub, t);
    NoLaterOccurrence(sub, y);
    forall i | i > |x| ensures !IsAt(s, sub, i) {
      if i + |sub| <= |s| {
        assert s[i..i + |sub|] == t[i - |x|..i - |x| + |sub|];
        assert !IsAt(t, sub, i - |x|);
      }
    }
    var r := IndexOf(s, sub);
    assert IsAt(s, sub, |x|);
    assert !(r == -1 || |x| < r);
  }

  /** `strings.HasPrefix`. */
  predicate HasPrefix(s: string, p: string) {
    |p| <= |s| && s[..|p|] == p
  }

  /** `strings.HasSuffix`. */
  predicate HasSuffix(s: string, p: string) {
    |p| <= |s| && s[|s| - |p|..] == p
  }

  /** `strings.TrimPrefix`. */
  function TrimPrefix(s: string, p: string): (r: string)
    ensures HasPrefix(s, p) ==> s == p + r
    ensures !HasPrefix(s, p) ==> r == s
  {
    if HasPrefix(s, p) then s[|p|..] else s
  }

  /** `strings.TrimSuffix`. */
  function TrimSuffix(s: string, p: string): (r: string)
    ensures HasSuffix(s, p) ==> s == r + p
    ensures !HasSuffix(s, p) ==> r == s
  {
    if HasSuffix(s, p) then s[..|s| - |p|] else s
  }

  // ---------------------------------------------------------------- ReplaceAll

  /**
   * `strings.ReplaceAll`: non-overlapping occurrences of `pat`, scanned from the
   * left, each replaced by `rep`; an empty `pat` matches before every code point
   * and at the end.
   */
  function ReplaceAll(s: string, pat: string, rep: string): string
    decreases |s|
  {
    if pat == [] then
      (if s == [] then rep else rep + [s[0]] + ReplaceAll(s[1..], pat, rep))
    else if |s| < |pat| then s
    else if s[..|pat|] == pat then rep + ReplaceAll(s[|pat|..], pat, rep)
    else [s[0]] + ReplaceAll(s[1..], pat, rep)
  }

  /** Replacing never introduces a code point found in neither `s` nor `rep`. */
  lemma {:induction false} ReplaceAllKeepsOut(s: string, pat: string, rep: string, c: char)
    requires c !in s && c !in rep
    ensures c !in ReplaceAll(s, pat, rep)
    decreases |s|
  {
    if pat == [] {
      if s != [] { ReplaceAllKeepsOut(s[1..], pat, rep, c); }
    } else if |s| < |pat| {
    } else if s[..|pat|] == pat {
      ReplaceAllKeepsOut(s[|pat|..], pat, rep, c);
    } else {
      ReplaceAllKeepsOut(s[1..], pat, rep, c);
    }
  }

  /** Replacing the one-code-point string `[c]` by text without `c` removes every `c`. */
  lemma {:induction false} ReplaceAllRemoves(s: string, c: char, rep: string)
    requires c !in rep
    ensures c !in ReplaceAll(s, [c], rep)
    decreases |s|
  {
    if |s| < 1 {
    } else if s[..1] == [c] {
      ReplaceAllRemoves(s[1..], c, rep);
    } else {
      ReplaceAllRemoves(s[1..], c, rep);
      assert s[0] != c by { assert s[..1] == [s[0]]; }
    }
  }

  /** A replacement by something no longer does not lengthen the text, and shortens it when `pat` occurs. */
  lemma {:induction false} ReplaceAllShrinks(s: string, pat: string, rep: string)
    requires pat != [] && |rep| < |pat|
    ensures |ReplaceAll(s, pat, rep)| <= |s|
    ensures Contains(s, pat) ==> |ReplaceAll(s, pat, rep)| < |s|
    decreases |s|
  {
    if |s| < |pat| {
      assert !Contains(s, pat) by {
        forall i ensures !IsAt(s, pat, i) { }
      }
    } else if s[..|pat|] == pat {
      ReplaceAllShrinks(s[|pat|..], pat, rep);
      assert |ReplaceAll(s, pat, rep)| == |rep| + |ReplaceAll(s[|pat|..], pat, rep)|;
    } else {
      ReplaceAllShrinks(s[1..], pat, rep);
      assert |ReplaceAll(s, pat, rep)| == 1 + |ReplaceAll(s[1..], pat, rep)|;
      ContainsPastHead(s, pat);
    }
  }

  /** An occurrence of `pat` that is not at the front of `s` is one in `s[1..]`. */
  lemma ContainsPastHead(s: string, pat: string)
    requires s != [] && pat != [] && !IsAt(s, pat, 0)
    ensures Contains(s, pat) ==> Contains(s[1..], pat)
  {
    if Contains(s, pat) {
      var i :| IsAt(s, pat, i);
      assert s[1..][i - 1..i - 1 + |pat|] == s[i..i + |pat|];
      assert IsAt(s[1..], pat, i - 1);
    }
  }

  // ---------------------------------------------------------------- trimming

  /** The number of white-space code points at the front of `s`. */
  function LeadingSpace(s: string): (n: nat)
    ensures n <= |s|
    ensures forall k :: 0 <= k < n ==> IsSpace(s[k])
    ensures n < |s| ==> !IsSpace(s[n])
    decreases |s|
  {
    if s != [] && IsSpace(s[0]) then 1 + LeadingSpace(s[1..]) else 0
  }

  /** Where `s` ends once its trailing white space is cut, never before `lo`. */
  function TextEnd(s: string, lo: nat): (hi: nat)
    requires lo <= |s|
    ensures lo <= hi <= |s|
    ensures forall k :: hi <= k < |s| ==> IsSpace(s[k])
    ensures hi > lo ==> !IsSpace(s[hi - 1])
    decreases |s|
  {
    if |s| > lo && IsSpace(s[|s| - 1]) then TextEnd(s[..|s| - 1], lo) else |s|
  }

  /** Neither starts nor ends with white space. */
  predicate IsTrimmed(s: string) {
    s == [] || (!IsSpace(s[0]) && !IsSpace(s[|s| - 1]))
  }

  /** `strings.TrimSpace`: the slice of `s` between its leading and trailing white space. */
  function TrimSpace(s: string): (r: string)
    ensures IsTrimmed(r) && |r| <= |s|
  {
    s[LeadingSpace(s)..TextEnd(s, LeadingSpace(s))]
  }

  /** Every code point of the trimmed text comes from the original. */
  lemma TrimSpaceChars(s: string)
    ensures forall c :: c in TrimSpace(s) ==> c in s
  {
    var lo := LeadingSpace(s);
    var r := TrimSpace(s);
    forall c | c in r ensures c in s {
      var i :| 0 <= i < |r| && r[i] == c;
      assert s[lo + i] == r[i];
    }
  }

  /** Trimming a trimmed text changes nothing. */
  lemma TrimSpaceTrimmed(s: string)
    requires IsTrimmed(s)
    ensures TrimSpace(s) == s
  {
    assert LeadingSpace(s) == 0;
    assert TextEnd(s, 0) == |s|;
  }

  /** One space in front of an otherwise trimmed text is trimmed off. */
  lemma TrimSpaceLeadingSpace(t: string)
    requires t != [] && IsTrimmed(t)
    ensures TrimSpace([' '] + t) == t
  {
    var s := [' '] + t;
    assert s[1..] == t;
    assert LeadingSpace(t) == 0;
    assert LeadingSpace(s) == 1;
    assert TextEnd(s, 1) == |s|;
  }

  /** Trimming keeps a text free of `sub` when it was. */
  lemma TrimSpaceNotContains(s: string, sub: string)
    requires !Contains(s, sub)
    ensures !Contains(TrimSpace(s), sub)
  {
    var lo := LeadingSpace(s);
    NotContainsSlice(s, sub, lo, TextEnd(s, lo));
  }

  /** The first index at or after `j` that is not a regular-expression `\s`. */
  function SkipRegexSpace(s: string, j: nat): (k: nat)
    requires j <= |s|
    ensures j <= k <= |s|
    ensures forall m :: j <= m < k ==> IsRegexSpace(s[m])
    ensures k < |s| ==> !IsRegexSpace(s[k])
    decreases |s| - j
  {
    if j < |s| && IsRegexSpace(s[j]) then SkipRegexSpace(s, j + 1) else j
  }

  /** The first non-space after a run of spaces that ends in a non-space is the end of that run. */
  lemma {:induction false} SkipRegexSpaceStops(s: string, j: nat, k: nat)
    requires j <= k < |s|
    requires forall m :: j <= m < k ==> IsRegexSpace(s[m])
    requires !IsRegexSpace(s[k])
    ensures SkipRegexSpace(s, j) == k
    decreases k - j
  {
    if j < k {
      SkipRegexSpaceStops(s, j + 1, k);
    }
  }

  /** The end of the run of decimal digits that starts at `j`. */
  function DigitEnd(s: string, j: nat): (k: nat)
    requires j <= |s|
    ensures j <= k <= |s|
    ensures forall m :: j <= m < k ==> IsDigit(s[m])
    ensures k < |s| ==> !IsDigit(s[k])
    decreases |s| - j
  {
    if j < |s| && IsDigit(s[j]) then DigitEnd(s, j + 1) else j
  }

  /** A run of digits followed by a non-digit (or the end) is what `DigitEnd` finds. */
  lemma {:induction false} DigitEndStops(s: string, j: nat, k: nat)
    requires j <= k <= |s|
    requires forall m :: j <= m < k ==> IsDigit(s[m])
    requires k < |s| ==> !IsDigit(s[k])
    ensures DigitEnd(s, j) == k
    decreases k - j
  {
    if j < k {
      DigitEndStops(s, j + 1, k);
    }
  }

  // ---------------------------------------------------------------- splitting and joining

  /** `strings.Split` for a non-empty separator. */
  function Split(s: string, sep: string): (parts: seq<string>)
    requires sep != []
    ensures |parts| >= 1
    decreases |s|
  {
    var i := IndexOf(s, sep);
    if i < 0 then [s] else [s[..i]] + Split(s[i + |sep|..], sep)
  }

  /** Splitting where the separator occurs exactly once gives the text before it and the text after it. */
  lemma SplitOnce(x: string, sep: string, y: string)
    requires sep != []
    requires IndexOf(x + sep + y, sep) == |x|
    requires !Contains(y, sep)
    ensures Split(x + sep + y, sep) == [x, y]
  {
    var s := x + sep + y;
    assert s[..|x|] == x;
    assert s[|x| + |sep|..] == y;
  }

  /** Splitting at a one-code-point separator after a piece that lacks it. */
  lemma SplitAtFirst(a: string, c: char, rest: string)
    requires c !in a
    ensures Split(a + [c] + rest, [c]) == [a] + Split(rest, [c])
  {
    var s := a + [c] + rest;
    assert IsAt(s, [c], |a|);
    forall j | 0 <= j < |a| ensures !IsAt(s, [c], j) {
      assert s[j] == a[j];
    }
    assert IndexOf(s, [c]) == |a|;
    assert s[..|a|] == a;
    assert s[|a| + 1..] == rest;
  }

  /** A text without the separator splits into itself alone. */
  lemma SplitNone(s: string, c: char)
    requires c !in s
    ensures Split(s, [c]) == [s]
  {
    ContainsChar(s, c);
  }

  /** Joining pieces that lack a one-code-point separator and splitting at it gives the pieces back. */
  lemma {:induction false} SplitJoin(parts: seq<string>, c: char)
    requires |parts| >= 1
    requires forall k :: 0 <= k < |parts| ==> c !in parts[k]
    ensures Split(Join(parts, [c]), [c]) == parts
    decreases |parts|
  {
    if |parts| == 1 {
      SplitNone(parts[0], c);
    } else {
      SplitJoin(parts[1..], c);
      SplitAtFirst(parts[0], c, Join(parts[1..], [c]));
      assert [parts[0]] + parts[1..] == parts;
    }
  }

  /** The length of the word at the front of `t`: up to its first white space. */
  function WordLen(t: string): (n: nat)
    ensures n <= |t|
    ensures forall k :: 0 <= k < n ==> !IsSpace(t[k])
    ensures n < |t| ==> IsSpace(t[n])
    decreases |t|
  {
    if t == [] || IsSpace(t[0]) then 0 else 1 + WordLen(t[1..])
  }

  /** No white space at all. */
  predicate NoSpace(w: string) {
    forall i :: 0 <= i < |w| ==> !IsSpace(w[i])
  }

  /** `strings.Fields`: the maximal runs of non-white-space code points. */
  function Fields(s: string): (ws: seq<string>)
    ensures forall k :: 0 <= k < |ws| ==> ws[k] != [] && NoSpace(ws[k])
    decreases |s|
  {
    var t := s[LeadingSpace(s)..];
    if t == [] then []
    else
      var n := WordLen(t);
      [t[..n]] + Fields(t[n..])
  }

  /** A code point missing from the text is missing from every field. */
  lemma {:induction false} FieldsLack(s: string, c: char)
    requires c !in s
    ensures forall k :: 0 <= k < |Fields(s)| ==> c !in Fields(s)[k]
    decreases |s|
  {
    var t := s[LeadingSpace(s)..];
    if t != [] {
      var n := WordLen(t);
      var rest := Fields(t[n..]);
      assert Fields(s) == [t[..n]] + rest;
      assert c !in t[n..] && c !in t[..n] by {
        assert forall x :: x in t ==> x in s;
        assert forall x :: x in t[n..] ==> x in t;
        assert forall x :: x in t[..n] ==> x in t;
      }
      FieldsLack(t[n..], c);
      forall k | 0 <= k < |Fields(s)| ensures c !in Fields(s)[k] {
        if k > 0 {
          assert Fields(s)[k] == rest[k - 1];
        }
      }
    }
  }

  /** `strings.Join`. */
  function Join(ws: seq<string>, sep: string): string
    decreases |ws|
  {
    if ws == [] then ""
    else if |ws| == 1 then ws[0]
    else ws[0] + sep + Join(ws[1..], sep)
  }

  /** Words separated by single ASCII spaces: trimmed, and each white space is a lone `' '`. */
  predicate SingleSpaced(s: string) {
    && IsTrimmed(s)
    && forall i :: 0 <= i < |s| && IsSpace(s[i]) ==> s[i] == ' ' && i + 1 < |s| && !IsSpace(s[i + 1])
  }

  /** Joining non-empty space-free words with one space gives single-spaced text. */
  lemma {:induction false} JoinWordsSingleSpaced(ws: seq<string>)
    requires forall k :: 0 <= k < |ws| ==> ws[k] != [] && NoSpace(ws[k])
    ensures SingleSpaced(Join(ws, " "))
    decreases |ws|
  {
    if |ws| == 1 {
    } else if |ws| > 1 {
      var tail := Join(ws[1..], " ");
      JoinWordsSingleSpaced(ws[1..]);
      var s := ws[0] + " " + tail;
      assert Join(ws, " ") == s;
      assert tail != [] by { assert ws[1..][0] == ws[1]; JoinNonEmpty(ws[1..]); }
      forall i | 0 <= i < |s| && IsSpace(s[i])
        ensures s[i] == ' ' && i + 1 < |s| && !IsSpace(s[i + 1])
      {
        if i < |ws[0]| {
        } else if i == |ws[0]| {
          assert s[i + 1] == tail[0];
        } else {
          assert s[i] == tail[i - |ws[0]| - 1];
          if i + 1 < |s| { assert s[i + 1] == tail[i - |ws[0]|]; }
        }
      }
    }
  }

  lemma JoinNonEmpty(ws: seq<string>)
    requires |ws| >= 1 && ws[0] != []
    ensures Join(ws, " ") != []
  {
  }

  /** A code point missing from every word and from the separator is missing from the joined text. */
  lemma {:induction false} JoinLacks(ws: seq<string>, sep: string, c: char)
    requires c !in sep
    requires forall k :: 0 <= k < |ws| ==> c !in ws[k]
    ensures c !in Join(ws, sep)
    decreases |ws|
  {
    if |ws| > 1 {
      JoinLacks(ws[1..], sep, c);
    }
  }

  // ---------------------------------------------------------------- byte length

  /** The number of bytes UTF-8 spends on `c`. */
  function Utf8Width(c: char): (n: nat)
    ensures 1 <= n <= 4
  {
    if c < '\U{0080}' then 1
    else if c < '\U{0800}' then 2
    else if c < '\U{10000}' then 3
    else 4
  }

  /** Go's `len` of a string: its length in UTF-8 bytes. */
  function Utf8Len(s: string): (n: nat)
    ensures n >= |s|
    decreases |s|
  {
    if s == [] then 0 else Utf8Width(s[0]) + Utf8Len(s[1..])
  }

  // ---------------------------------------------------------------- case

  /**
   * `unicode.ToLower` on ASCII, Latin-1 and Latin Extended-A, the blocks
   * Czech and Slovak titles are written in; other code points are left as they are.
   */
  function LowerChar(c: char): char {
    if 'A' <= c <= 'Z' then (c as int + 32) as char
    else if '\U{00C0}' <= c <= '\U{00DE}' && c != '\U{00D7}' then (c as int + 32) as char
    else if '\U{0100}' <= c <= '\U{012F}' && (c as int) % 2 == 0 then (c as int + 1) as char
    else if c == '\U{0130}' then 'i'
    else if '\U{0132}' <= c <= '\U{0137}' && (c as int) % 2 == 0 then (c as int + 1) as char
    else if '\U{0139}' <= c <= '\U{0148}' && (c as int) % 2 == 1 then (c as int + 1) as char
    else if '\U{014A}' <= c <= '\U{0177}' && (c as int) % 2 == 0 then (c as int + 1) as char
    else if c == '\U{0178}' then '\U{00FF}'
    else if '\U{0179}' <= c <= '\U{017E}' && (c as int) % 2 == 1 then (c as int + 1) as char
    else c
  }

  /** `strings.ToLower`, code point by code point. */
  function ToLower(s: string): (r: string)
    ensures |r| == |s|
    ensures forall i :: 0 <= i < |s| ==> r[i] == LowerChar(s[i])
  {
    seq(|s|, i requires 0 <= i < |s| => LowerChar(s[i]))
  }

  /** Lower-casing a lower-case code point changes nothing. */
  lemma LowerCharIdempotent(c: char)
    ensures LowerChar(LowerChar(c)) == LowerChar(c)
  {
  }

  // ---------------------------------------------------------------- integers

  const MinInt64: int := -0x8000_0000_0000_0000
  const MaxInt64: int := 0x7FFF_FFFF_FFFF_FFFF

  /** Go's `int` on a 64-bit platform. */
  type Int64 = x: int | MinInt64 <= x <= MaxInt64

  predicate AllDigits(s: string) {
    forall i :: 0 <= i < |s| ==> IsDigit(s[i])
  }

  function DigitValue(c: char): nat
    requires IsDigit(c)
  {
    (c as int) - ('0' as int)
  }

  /** The value of a run of decimal digits. */
  function DigitsValue(s: string): nat
    requires AllDigits(s)
    decreases |s|
  {
    if s == [] then 0 else DigitsValue(s[..|s| - 1]) * 10 + DigitValue(s[|s| - 1])
  }

  /** What `strconv.Atoi` accepts, range aside: an optional sign and at least one decimal digit. */
  predicate IsDecimal(s: string) {
    if |s| > 0 && (s[0] == '+' || s[0] == '-') then |s| > 1 && AllDigits(s[1..])
    else |s| > 0 && AllDigits(s)
  }

  function DecimalValue(s: string): int
    requires IsDecimal(s)
  {
    if s[0] == '-' then -(DigitsValue(s[1..]) as int)
    else if s[0] == '+' then DigitsValue(s[1..])
    else DigitsValue(s)
  }

  /** `strconv.Atoi` where its error is checked: `None` on a syntax or range error. */
  function Atoi(s: string): (r: Option<Int64>)
    ensures r.Some? <==> IsDecimal(s) && MinInt64 <= DecimalValue(s) <= MaxInt64
    ensures r.Some? ==> r.value == DecimalValue(s)
  {
    if IsDecimal(s) && MinInt64 <= DecimalValue(s) <= MaxInt64 then Some(DecimalValue(s)) else None
  }

  /**
   * `strconv.Atoi` where its error is discarded (`n, _ := strconv.Atoi(s)`):
   * 0 after a syntax error, the nearest 64-bit bound after a range error.
   */
  function AtoiOrZero(s: string): Int64 {
    if !IsDecimal(s) then 0
    else if DecimalValue(s) < MinInt64 then MinInt64
    else if DecimalValue(s) > MaxInt64 then MaxInt64
    else DecimalValue(s)
  }

  function DigitChar(d: nat): (c: char)
    requires d < 10
    ensures IsDigit(c) && DigitValue(c) == d
  {
    ('0' as int + d) as char
  }

  /** The decimal digits of `n`, without leading zeros. */
  function NatToString(n: nat): (s: string)
    ensures |s| > 0 && AllDigits(s)
    decreases n
  {
    if n < 10 then [DigitChar(n)] else NatToString(n / 10) + [DigitChar(n % 10)]
  }

  /** `strconv.Itoa`, and `%d` in `fmt`. */
  function Itoa(n: int): (s: string)
    ensures s != [] && forall c :: c in s ==> IsDigit(c) || c == '-'
  {
    if n < 0 then "-" + NatToString(-n) else NatToString(n)
  }

  /** `%02d` in `fmt`: at least two characters, zero-padded after any sign. */
  function Pad2(n: int): (s: string)
    ensures |s| >= 2
  {
    if n < 0 then
      assert |NatToString(-n)| >= 1;
      Itoa(n)
    else if n < 10 then "0" + NatToString(n)
    else
      assert n / 10 >= 1;
      assert |NatToString(n / 10)| >= 1;
      NatToString(n)
  }

  lemma {:induction false} NatToStringValue(n: nat)
    ensures DigitsValue(NatToString(n)) == n
    decreases n
  {
    if n >= 10 {
      NatToStringValue(n / 10);
      var s := NatToString(n);
      assert s[..|s| - 1] == NatToString(n / 10);
    }
  }

  /** A leading zero does not change the value of a run of digits. */
  lemma {:induction false} LeadingZeroValue(s: string)
    requires AllDigits(s)
    ensures AllDigits("0" + s) && DigitsValue("0" + s) == DigitsValue(s)
    decreases |s|
  {
    if s != [] {
      LeadingZeroValue(s[..|s| - 1]);
      assert ("0" + s)[..|s|] == "0" + s[..|s| - 1];
    }
  }

  /** `strconv.Atoi` reads back what `strconv.Itoa` wrote. */
  lemma AtoiItoa(n: Int64)
    ensures Atoi(Itoa(n)) == Some(n)
    ensures AtoiOrZero(Itoa(n)) == n
  {
    if n < 0 {
      NatToStringValue(-(n as int));
      assert Itoa(n)[1..] == NatToString(-(n as int));
    } else {
      NatToStringValue(n);
      assert Itoa(n)[0] != '-' && Itoa(n)[0] != '+' by { assert IsDigit(Itoa(n)[0]); }
    }
  }

  /** The `%02d` form reads back as the number it was made from. */
  lemma AtoiPad2(n: Int64)
    ensures AtoiOrZero(Pad2(n)) == n
  {
    if n < 0 {
      AtoiItoa(n);
    } else if n < 10 {
      NatToStringValue(n);
      LeadingZeroValue(NatToString(n));
    } else {
      AtoiItoa(n);
    }
  }
}
