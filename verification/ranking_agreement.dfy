/**
 * The ranking keys read back what composition wrote: the source line of the
 * description gives the source resolution, the label in the name gives the
 * stream resolution, and the size in the description gives the size. The
 * formats (main.go:905-918) and the patterns (main.go:936-943) share their
 * markers, so these hold as the source is written.
 */
module RankingAgreement {
  import opened Wrappers
  import opened Text
  import opened SearchPage
  import opened Compose
  import opened Ranking

  /** Where `Source:`, the space and the word lie in `pre + "Source: " + word + rest`. */
  lemma TagWordLayout(pre: string, word: string, rest: string)
    requires word != [] && !IsRegexSpace(word[0])
    ensures TagWordAt(pre + SourceTag + " " + word + rest, word, |pre|)
  {
    var t := pre + SourceTag + " " + word + rest;
    var i := |pre|;
    var t1 := word + rest;
    var t2 := " " + t1;
    var t3 := SourceTag + t2;
    assert t == pre + t3;
    assert t[i..i + |SourceTag|] == SourceTag;
    assert t[i + |SourceTag|] == t2[0] == ' ';
    assert t[i + |SourceTag| + 1] == t1[0] == word[0];
    SkipRegexSpaceStops(t, i + |SourceTag|, i + |SourceTag| + 1);
    assert t[i + |SourceTag| + 1..i + |SourceTag| + 1 + |word|] == word;
  }

  /** The description's lines before the source line: both lines of the hit, then the gear and a space. */
  function SourceLineHead(res: PrehrajResult): string {
    HitLines(res) + "\n" + Gear + " "
  }

  lemma DescriptionWithSource(res: PrehrajResult, sourceRes: string)
    requires sourceRes != ""
    ensures Description(res, sourceRes) == SourceLineHead(res) + SourceTag + " " + DisplaySource(sourceRes)
  {
  }

  /** A resolution holding 3840 or 2160 ranks as 2160, whatever the hit's own text says. */
  lemma SourceResOf4K(res: PrehrajResult, sourceRes: string)
    requires Contains(sourceRes, "3840") || Contains(sourceRes, "2160")
    ensures SourceRes(Description(res, sourceRes)) == 2160
  {
    var d := Description(res, sourceRes);
    DescriptionWithSource(res, sourceRes);
    TagWordLayout(SourceLineHead(res), "4K", "");
    assert TagWordAt(d, "4K", |SourceLineHead(res)|);
  }

  /** The hit's two lines hold no `Source:` when its title, size and duration hold none. */
  lemma HitLinesLackTag(res: PrehrajResult)
    requires !Contains(res.title, SourceTag) && !Contains(res.size, SourceTag) && !Contains(res.duration, SourceTag)
    ensures !Contains(HitLines(res), SourceTag)
    ensures !Contains(SourceLineHead(res), SourceTag)
  {
    NotContainsHead(Folder, SourceTag);
    NotContainsHead(" ", SourceTag);
    NotContainsHead("\n", SourceTag);
    NotContainsHead(Disk, SourceTag);
    NotContainsHead(Bullet, SourceTag);
    NotContainsHead(Timer, SourceTag);
    NotContainsHead(Gear, SourceTag);
    var s1 := Folder + " ";
    NotContainsJoin(Folder, " ", SourceTag);
    var s2 := s1 + res.title;
    NotContainsJoin(s1, res.title, SourceTag);
    var s3 := s2 + "\n";
    NotContainsJoin(s2, "\n", SourceTag);
    var s4 := s3 + Disk;
    NotContainsJoin(s3, Disk, SourceTag);
    var s5 := s4 + " ";
    NotContainsJoin(s4, " ", SourceTag);
    var s6 := s5 + res.size;
    NotContainsJoin(s5, res.size, SourceTag);
    var s7 := s6 + " ";
    NotContainsJoin(s6, " ", SourceTag);
    var s8 := s7 + Bullet;
    NotContainsJoin(s7, Bullet, SourceTag);
    var s9 := s8 + " ";
    NotContainsJoin(s8, " ", SourceTag);
    var s10 := s9 + Timer;
    NotContainsJoin(s9, Timer, SourceTag);
    var s11 := s10 + " ";
    NotContainsJoin(s10, " ", SourceTag);
    var s12 := s11 + res.duration;
    NotContainsJoin(s11, res.duration, SourceTag);
    assert s12 == HitLines(res);
    var s13 := s12 + "\n";
    NotContainsJoin(s12, "\n", SourceTag);
    var s14 := s13 + Gear;
    NotContainsJoin(s13, Gear, SourceTag);
    var s15 := s14 + " ";
    NotContainsJoin(s14, " ", SourceTag);
    assert s15 == SourceLineHead(res);
  }

  /** In a description whose only `Source:` is that of the source line, `Source:` occurs just there. */
  lemma OnlySourceLine(res: PrehrajResult, shown: string)
    requires !Contains(SourceLineHead(res), SourceTag)
    requires !Contains(shown, SourceTag)
    ensures forall i :: IsAt(SourceLineHead(res) + SourceTag + " " + shown, SourceTag, i) <==> i == |SourceLineHead(res)|
  {
    var head := SourceLineHead(res);
    var tail := " " + shown;
    NotContainsHead(" ", SourceTag);
    NotContainsJoin(" ", shown, SourceTag);
    assert head[|head| - 1] == ' ';
    OnlyOccurrence(head, SourceTag, tail);
    assert head + SourceTag + " " + shown == head + SourceTag + tail;
  }

  /** When `Source:` occurs only at `k` and is followed there by `word`, no other word starting differently follows any `Source:`. */
  lemma TagWordUnique(d: string, k: int, word: string, other: string)
    requires forall i :: IsAt(d, SourceTag, i) ==> i == k
    requires TagWordAt(d, word, k)
    requires word != [] && other != [] && word[0] != other[0]
    ensures !HasTagWord(d, other)
  {
    forall i | 0 <= i <= |d| ensures !TagWordAt(d, other, i) {
      if IsAt(d, SourceTag, i) {
        var u := SkipRegexSpace(d, k + |SourceTag|);
        assert d[u..u + |word|][0] == d[u];
        if u + |other| <= |d| {
          assert d[u..u + |other|][0] == d[u];
        }
      }
    }
  }

  /** Otherwise, a resolution holding 1920 or 1080 ranks as 1080, when the hit's own text holds no `Source:`. */
  lemma SourceResOf1080(res: PrehrajResult, sourceRes: string)
    requires !(Contains(sourceRes, "3840") || Contains(sourceRes, "2160"))
    requires Contains(sourceRes, "1920") || Contains(sourceRes, "1080")
    requires !Contains(res.title, SourceTag) && !Contains(res.size, SourceTag) && !Contains(res.duration, SourceTag)
    ensures SourceRes(Description(res, sourceRes)) == 1080
  {
    var head := SourceLineHead(res);
    var d := Description(res, sourceRes);
    assert d == head + SourceTag + " " + "1080p" by {
      DescriptionWithSource(res, sourceRes);
    }
    assert TagWordAt(d, "1080p", |head|) by {
      TagWordLayout(head, "1080p", "");
      assert d == head + SourceTag + " " + "1080p" + "";
    }
    assert !HasTagWord(d, "4K") by {
      HitLinesLackTag(res);
      NotContainsHead("1080p", SourceTag);
      OnlySourceLine(res, "1080p");
      TagWordUnique(d, |head|, "1080p", "4K");
    }
  }

  /** Without a source line, a hit whose own text holds no `Source:` ranks 0 on source resolution. */
  lemma SourceResWithoutSourceLine(res: PrehrajResult)
    requires !Contains(res.title, SourceTag) && !Contains(res.size, SourceTag) && !Contains(res.duration, SourceTag)
    ensures SourceRes(Description(res, "")) == 0
  {
    var d := Description(res, "");
    HitLinesLackTag(res);
    assert d == HitLines(res);
    RawHeightFromNone(d, 0);
  }

  /** With `Source:` only at `k`, a word follows some `Source:` exactly when it follows that one. */
  lemma TagWordOnlyAt(d: string, k: int, word: string)
    requires forall i :: IsAt(d, SourceTag, i) ==> i == k
    ensures HasTagWord(d, word) ==> TagWordAt(d, word, k)
  {
  }

  /** A word follows `Source: ` in `head + "Source: " + shown` exactly when `shown`, which starts with no space, starts with it. */
  lemma TagWordBeforeShown(head: string, shown: string, word: string)
    requires shown != [] && !IsRegexSpace(shown[0])
    ensures TagWordAt(head + SourceTag + " " + shown, word, |head|) ==> HasPrefix(shown, word)
  {
    var d := head + SourceTag + " " + shown;
    var u := |head| + |SourceTag| + 1;
    assert d == (head + SourceTag + " ") + shown;
    assert d[u - 1] == ' ' && d[u] == shown[0];
    SkipRegexSpaceStops(d, u - 1, u);
    if IsAt(d, word, u) {
      assert shown[..|word|] == d[u..u + |word|];
    }
  }

  /** A line without a newline runs to the end of the text. */
  lemma LineEndAtEnd(t: string, j: nat)
    requires j <= |t|
    requires forall k :: j <= k < |t| ==> t[k] != '\n'
    ensures LineEnd(t, j) == |t|
  {
  }

  /** `t` ends with `s`, which starts at `off`. */
  predicate EndsWithAt(t: string, s: string, off: nat) {
    off + |s| == |t| && forall m :: 0 <= m < |s| ==> t[off + m] == s[m]
  }

  /** Skipping white space in the tail of a text is skipping it in the tail alone. */
  lemma {:induction false} SkipRegexSpaceShift(t: string, s: string, off: nat, j: nat)
    requires EndsWithAt(t, s, off) && j <= |s|
    ensures SkipRegexSpace(t, off + j) == off + SkipRegexSpace(s, j)
    decreases |s| - j
  {
    if j < |s| && IsRegexSpace(s[j]) {
      assert t[off + j] == s[j];
      SkipRegexSpaceShift(t, s, off, j + 1);
    } else if j < |s| {
      assert t[off + j] == s[j];
    }
  }

  /** The digit run in the tail of a text is the digit run of the tail alone. */
  lemma {:induction false} DigitEndShift(t: string, s: string, off: nat, j: nat)
    requires EndsWithAt(t, s, off) && j <= |s|
    ensures DigitEnd(t, off + j) == off + DigitEnd(s, j)
    decreases |s| - j
  {
    if j < |s| && IsDigit(s[j]) {
      assert t[off + j] == s[j];
      DigitEndShift(t, s, off, j + 1);
    } else if j < |s| {
      assert t[off + j] == s[j];
    }
  }

  /** A stretch of the tail is the same stretch of the text it ends. */
  lemma SliceShift(t: string, s: string, off: nat, lo: nat, hi: nat)
    requires EndsWithAt(t, s, off) && lo <= hi <= |s|
    ensures t[off + lo..off + hi] == s[lo..hi]
  {
    assert forall m :: 0 <= m < hi - lo ==> t[off + lo..off + hi][m] == t[off + lo + m] == s[lo + m] == s[lo..hi][m];
  }

  /** A height depends only on the text from its position on. */
  lemma HeightAtShift(t: string, s: string, off: nat, m: nat)
    requires EndsWithAt(t, s, off) && m < |s|
    ensures HeightAt(t, off + m) == HeightAt(s, m)
  {
    assert t[off + m] == s[m];
    if s[m] == 'x' {
      SkipRegexSpaceShift(t, s, off, m + 1);
      var q := SkipRegexSpace(s, m + 1);
      if q < |s| {
        assert t[off + q] == s[q];
        DigitEndShift(t, s, off, q);
        var e := DigitEnd(s, q);
        SliceShift(t, s, off, q, e);
      }
    }
  }

  /** A tail in which no height starts adds none to the text it ends. */
  lemma HeightFreeTail(t: string, s: string, off: nat)
    requires EndsWithAt(t, s, off) && NoHeightBetween(s, 0, |s|)
    ensures NoHeightBetween(t, off, |t|)
  {
    forall p | off <= p < |t| ensures HeightAt(t, p).None? {
      HeightAtShift(t, s, off, p - off);
    }
  }

  /** White space and digits after `p`, then a tail in which no height starts: no height after `p`. */
  lemma NoHeightAfterRun(d: string, p: nat, q: nat, e: nat, post: string)
    requires p < q <= e <= |d|
    requires forall m :: p < m < q ==> IsRegexSpace(d[m])
    requires forall m :: q <= m < e ==> IsDigit(d[m])
    requires EndsWithAt(d, post, e) && NoHeightBetween(post, 0, |post|)
    ensures NoHeightBetween(d, p + 1, |d|)
  {
    HeightFreeTail(d, post, e);
    forall m | p < m < e ensures HeightAt(d, m).None? {
      assert d[m] != 'x';
    }
  }

  /**
   * On the line that starts at `lo` with a space and goes on with
   * `sourceRes` to the end of the text, the digits after the last `x` of
   * `sourceRes` that starts a height are the line's height.
   */
  lemma RawLineHeight(d: string, lo: nat, sourceRes: string, pre: string, sp: string, digits: string, post: string)
    requires lo + 1 + |sourceRes| == |d| && d[lo] == ' '
    requires forall m :: lo < m < |d| ==> d[m] == sourceRes[m - lo - 1]
    requires sourceRes == pre + "x" + sp + digits + post && '\n' !in sourceRes
    requires forall m :: 0 <= m < |sp| ==> IsRegexSpace(sp[m])
    requires digits != [] && AllDigits(digits)
    requires (post == [] || !IsDigit(post[0])) && NoHeightBetween(post, 0, |post|)
    ensures LastHeight(d, lo, LineEnd(d, lo)) == Some(digits)
  {
    var p := lo + 1 + |pre|;
    var q := p + 1 + |sp|;
    var e := q + |digits|;
    assert forall m :: lo < m < |d| ==> d[m] != '\n' by {
      forall m | lo < m < |d| ensures d[m] != '\n' {
        assert sourceRes[m - lo - 1] in sourceRes;
      }
    }
    LineEndAtEnd(d, lo);
    assert d[p] == 'x';
    assert forall m :: p < m < q ==> d[m] == sp[m - p - 1];
    assert forall m :: q <= m < e ==> d[m] == digits[m - q];
    if e < |d| {
      assert d[e] == post[0];
    }
    HeightAtRun(d, p, q, e);
    assert d[q..e] == digits;
    assert forall m :: p < m < q ==> IsRegexSpace(d[m]) by {
      forall m | p < m < q ensures IsRegexSpace(d[m]) {
        assert IsRegexSpace(sp[m - p - 1]);
      }
    }
    assert forall m :: q <= m < e ==> IsDigit(d[m]) by {
      forall m | q <= m < e ensures IsDigit(d[m]) {
        assert IsDigit(digits[m - q]);
      }
    }
    assert EndsWithAt(d, post, e);
    NoHeightAfterRun(d, p, q, e, post);
    LastHeightIs(d, lo, |d|, p);
  }

  /** When `Source:` occurs only at `k`, followed by a space and `sourceRes` to the end of the text, the digits after the last `x` of `sourceRes` that starts a height are the raw height. */
  lemma RawHeightOfSourceLine(d: string, k: nat, sourceRes: string, pre: string, sp: string, digits: string, post: string)
    requires IsAt(d, SourceTag, k) && forall i :: 0 <= i < k ==> !IsAt(d, SourceTag, i)
    requires k + |SourceTag| + 1 + |sourceRes| == |d| && d[k + |SourceTag|] == ' '
    requires forall m :: k + |SourceTag| < m < |d| ==> d[m] == sourceRes[m - k - |SourceTag| - 1]
    requires sourceRes == pre + "x" + sp + digits + post && '\n' !in sourceRes
    requires forall m :: 0 <= m < |sp| ==> IsRegexSpace(sp[m])
    requires digits != [] && AllDigits(digits)
    requires (post == [] || !IsDigit(post[0])) && NoHeightBetween(post, 0, |post|)
    ensures RawHeightFrom(d, 0) == Some(digits)
  {
    var lo := k + |SourceTag|;
    RawLineHeight(d, lo, sourceRes, pre, sp, digits, post);
    RawHeightAtFirstTag(d, k);
  }

  /** The first `Source:` whose line has a height gives the raw height. */
  lemma RawHeightAtFirstTag(d: string, k: nat)
    requires k < |d| && IsAt(d, SourceTag, k)
    requires forall i :: 0 <= i < k ==> !IsAt(d, SourceTag, i)
    requires LastHeight(d, k + |SourceTag|, LineEnd(d, k + |SourceTag|)).Some?
    ensures RawHeightFrom(d, 0) == LastHeight(d, k + |SourceTag|, LineEnd(d, k + |SourceTag|))
  {
    RawHeightFromSkip(d, 0, k);
  }

  /** A run of decimal digits small enough for 64 bits is what `strconv.Atoi` reads. */
  lemma AtoiDigits(digits: string)
    requires digits != [] && AllDigits(digits) && DigitsValue(digits) <= MaxInt64
    ensures Atoi(digits) == Some(DigitsValue(digits))
  {
    assert IsDigit(digits[0]);
  }

  /** A text that starts with `1080p` holds `1080`. */
  lemma PrefixHolds1080(s: string)
    requires HasPrefix(s, "1080p")
    ensures Contains(s, "1080")
  {
    assert s[0..4] == s[..5][..4];
    assert IsAt(s, "1080", 0);
  }

  /** With `Source:` only at `|head|`, a word that `shown` does not start with follows no `Source:`. */
  lemma NoWordAfterOnlyTag(head: string, shown: string, word: string)
    requires forall i :: IsAt(head + SourceTag + " " + shown, SourceTag, i) ==> i == |head|
    requires shown != [] && !IsRegexSpace(shown[0]) && !HasPrefix(shown, word)
    ensures !HasTagWord(head + SourceTag + " " + shown, word)
  {
    TagWordOnlyAt(head + SourceTag + " " + shown, |head|, word);
    TagWordBeforeShown(head, shown, word);
  }

  /** Where the space and `shown` lie in `head + "Source: " + shown`. */
  lemma SourceLineIndices(head: string, shown: string)
    ensures var d := head + SourceTag + " " + shown; var k := |head|;
      && k + |SourceTag| + 1 + |shown| == |d| && d[k + |SourceTag|] == ' '
      && forall m :: k + |SourceTag| < m < |d| ==> d[m] == shown[m - k - |SourceTag| - 1]
  {
    var d := head + SourceTag + " " + shown;
    assert d == (head + SourceTag) + (" " + shown);
  }

  /**
   * A description with a resolution shown as it is: `Source:` occurs only on
   * the source line, neither `4K` nor `1080p` follows it, and the rest of the
   * line is a space and the resolution.
   */
  lemma RawSourceLine(res: PrehrajResult, sourceRes: string)
    requires !Contains(sourceRes, "3840") && !Contains(sourceRes, "2160") && !Contains(sourceRes, "1920") && !Contains(sourceRes, "1080")
    requires sourceRes != [] && !IsRegexSpace(sourceRes[0]) && !HasPrefix(sourceRes, "4K")
    requires !Contains(sourceRes, SourceTag)
    requires !Contains(res.title, SourceTag) && !Contains(res.size, SourceTag) && !Contains(res.duration, SourceTag)
    ensures var d := Description(res, sourceRes); var k := |SourceLineHead(res)|;
      && (forall i :: IsAt(d, SourceTag, i) <==> i == k)
      && !HasTagWord(d, "4K") && !HasTagWord(d, "1080p")
      && k + |SourceTag| + 1 + |sourceRes| == |d| && d[k + |SourceTag|] == ' '
      && forall m :: k + |SourceTag| < m < |d| ==> d[m] == sourceRes[m - k - |SourceTag| - 1]
  {
    var head := SourceLineHead(res);
    DescriptionWithSource(res, sourceRes);
    assert DisplaySource(sourceRes) == sourceRes;
    HitLinesLackTag(res);
    OnlySourceLine(res, sourceRes);
    NoWordAfterOnlyTag(head, sourceRes, "4K");
    if HasPrefix(sourceRes, "1080p") {
      PrefixHolds1080(sourceRes);
    }
    NoWordAfterOnlyTag(head, sourceRes, "1080p");
    SourceLineIndices(head, sourceRes);
  }

  /**
   * The height of a resolution shown as it is (one holding none of 3840,
   * 2160, 1920, 1080, such as `1280 x 720 px`): the digits after the last `x`
   * that starts a height (an `x`, white space, digits) are its source
   * resolution, when the resolution is one line that starts with neither
   * white space nor `4K`, and neither it nor the hit's text holds `Source:`.
   */
  lemma SourceResOfRaw(res: PrehrajResult, sourceRes: string, pre: string, sp: string, digits: string, post: string)
    requires sourceRes == pre + "x" + sp + digits + post
    requires !Contains(sourceRes, "3840") && !Contains(sourceRes, "2160") && !Contains(sourceRes, "1920") && !Contains(sourceRes, "1080")
    requires !IsRegexSpace(sourceRes[0]) && !HasPrefix(sourceRes, "4K") && '\n' !in sourceRes
    requires forall m :: 0 <= m < |sp| ==> IsRegexSpace(sp[m])
    requires digits != [] && AllDigits(digits) && DigitsValue(digits) <= MaxInt64
    requires (post == [] || !IsDigit(post[0])) && NoHeightBetween(post, 0, |post|)
    requires !Contains(sourceRes, SourceTag)
    requires !Contains(res.title, SourceTag) && !Contains(res.size, SourceTag) && !Contains(res.duration, SourceTag)
    ensures SourceRes(Description(res, sourceRes)) == DigitsValue(digits)
  {
    var d := Description(res, sourceRes);
    RawSourceLine(res, sourceRes);
    var k := |SourceLineHead(res)|;
    assert IsAt(d, SourceTag, k);
    RawHeightOfSourceLine(d, k, sourceRes, pre, sp, digits, post);
    AtoiDigits(digits);
  }

  /** `1280 x 720 px` ranks as 720: the `x` of `px` starts no height. */
  lemma SourceResOfPixels(res: PrehrajResult)
    requires !Contains(res.title, SourceTag) && !Contains(res.size, SourceTag) && !Contains(res.duration, SourceTag)
    ensures SourceRes(Description(res, "1280 x 720 px")) == 720
  {
    var sourceRes := "1280 x 720 px";
    PixelsLayout();
    NotContainsPixels(sourceRes);
    SourceResOfRaw(res, sourceRes, "1280 ", " ", "720", " px");
  }

  /** How `1280 x 720 px` splits around the `x` that starts its height. */
  lemma PixelsLayout()
    ensures "1280 x 720 px" == "1280 " + "x" + " " + "720" + " px"
    ensures !IsRegexSpace('1') && IsRegexSpace(' ') && !IsDigit(' ')
    ensures AllDigits("720") && DigitsValue("720") == 720 && 720 <= MaxInt64
    ensures NoHeightBetween(" px", 0, 3)
  {
    assert "720"[..2] == "72" && "72"[..1] == "7";
    assert HeightAt(" px", 2).None?;
  }

  /** `1280 x 720 px` holds none of the markers that map a resolution to 4K or 1080p, and no `Source:`. */
  lemma NotContainsPixels(s: string)
    requires s == "1280 x 720 px"
    ensures !Contains(s, "3840") && !Contains(s, "2160") && !Contains(s, "1920") && !Contains(s, "1080")
    ensures !Contains(s, SourceTag) && !HasPrefix(s, "4K") && '\n' !in s
  {
    forall i | 0 <= i <= |s| - 4 ensures !IsAt(s, "3840", i) && !IsAt(s, "2160", i) && !IsAt(s, "1920", i) && !IsAt(s, "1080", i) {
      assert s[i..i + 4][0] == s[i] && s[i..i + 4][1] == s[i + 1] && s[i..i + 4][2] == s[i + 2] && s[i..i + 4][3] == s[i + 3];
    }
    forall i | 0 <= i <= |s| - |SourceTag| ensures !IsAt(s, SourceTag, i) {
      assert s[i..i + |SourceTag|][0] == s[i];
    }
  }

  /** The marker at `i`, one space, three or four digits and a `p`: a match worth those digits. */
  lemma StreamResAtLayout(n: string, i: nat, digits: string)
    requires 3 <= |digits| <= 4 && AllDigits(digits)
    requires IsAt(n, Marker, i)
    requires i + |Marker| + 2 + |digits| <= |n|
    requires n[i + |Marker|] == ' '
    requires n[i + |Marker| + 1..i + |Marker| + 1 + |digits|] == digits
    requires n[i + |Marker| + 1 + |digits|] == 'p'
    ensures StreamResAt(n, i) == Some(DigitsValue(digits))
  {
    var j := i + |Marker|;
    assert n[j + 1] == digits[0];
    SkipRegexSpaceStops(n, j, j + 1);
    DigitRunAt(n, j + 1, digits);
  }

  /** The value at the first marker that starts a match is the stream resolution. */
  lemma StreamResFirst(n: string, i: nat, v: int)
    requires forall j :: 0 <= j < i ==> !IsAt(n, Marker, j)
    requires IsAt(n, Marker, i) && StreamResAt(n, i) == Some(v)
    ensures StreamRes(n) == v
  {
    StreamResFromSkip(n, 0, i);
  }

  /** A run of digits followed by a non-digit is the run `DigitEnd` finds. */
  lemma DigitRunAt(n: string, q: nat, digits: string)
    requires AllDigits(digits)
    requires q + |digits| < |n| && n[q..q + |digits|] == digits && !IsDigit(n[q + |digits|])
    ensures DigitEnd(n, q) == q + |digits|
  {
    forall m | q <= m < q + |digits| ensures IsDigit(n[m]) {
      assert n[m] == digits[m - q];
    }
    DigitEndStops(n, q, q + |digits|);
  }

  /** Where the marker, the space, the digits and the `p` lie in a composed name. */
  lemma ComposedNameLayout(digits: string, rest: string)
    ensures var n := ComposedName(digits + "p" + rest); var i := |"Prehraj.to "|;
      && (forall j :: 0 <= j < i ==> !IsAt(n, Marker, j))
      && IsAt(n, Marker, i)
      && i + |Marker| + 2 + |digits| <= |n|
      && n[i + |Marker|] == ' '
      && n[i + |Marker| + 1..i + |Marker| + 1 + |digits|] == digits
      && n[i + |Marker| + 1 + |digits|] == 'p'
  {
    var head := "Prehraj.to ";
    var n := ComposedName(digits + "p" + rest);
    var i := |head|;
    var t1 := "p" + rest;
    var t2 := digits + t1;
    var t3 := " " + t2;
    var t4 := Marker + t3;
    assert n == head + t4;
    assert forall j :: 0 <= j < i ==> !IsAt(n, Marker, j) by {
      NotContainsHead(head, Marker);
      NoEarlierOccurrence(head, Marker, t4);
    }
    assert n[i..] == t4;
    assert IsAt(n, Marker, i) by {
      assert n[i..i + |Marker|] == t4[..|Marker|] == Marker;
    }
    var k := i + |Marker| + 1;
    assert n[k - 1] == t4[|Marker|] == ' ';
    assert n[k..] == t2 by {
      assert n[k..] == t4[|Marker| + 1..] == t3[1..];
    }
    assert n[k..k + |digits|] == t2[..|digits|] == digits;
    assert n[k + |digits|] == t2[|digits|] == 'p';
  }

  /** A label that starts with three or four digits and a `p` ranks as that number on stream resolution. */
  lemma StreamResOfLabel(digits: string, rest: string)
    requires 3 <= |digits| <= 4 && AllDigits(digits)
    ensures StreamRes(ComposedName(digits + "p" + rest)) == DigitsValue(digits)
  {
    var n := ComposedName(digits + "p" + rest);
    ComposedNameLayout(digits, rest);
    StreamResAtLayout(n, |"Prehraj.to "|, digits);
    StreamResFirst(n, |"Prehraj.to "|, DigitsValue(digits));
  }

  // ------------------------------------------------------------------ the size

  /** A size as the search page writes it: whole digits, a point and fraction digits when there is a fraction, a space, the unit. */
  function SizeString(whole: string, fraction: string, unit: string): string {
    whole + (if fraction == [] then "" else "." + fraction) + " " + unit
  }

  /** A unit at `u` is what `(GB|MB|kB)` reads there. */
  lemma UnitAtLayout(t: string, u: nat, unit: string)
    requires IsUnit(unit) && u + 2 <= |t| && t[u..u + 2] == unit
    ensures UnitAt(t, u) == Some(unit)
  {
    assert IsAt(t, unit, u);
    if unit != "GB" {
      assert t[u..u + 2][0] != 'G';
    }
    if unit == "kB" {
      assert t[u..u + 2][0] != 'M';
    }
  }

  /** A space and a unit at `f`: the space is skipped and the unit is read. */
  lemma UnitLayout(t: string, f: nat, unit: string, more: string)
    requires IsUnit(unit) && f <= |t| && t[f..] == " " + unit + more
    ensures SkipRegexSpace(t, f) == f + 1 && UnitAt(t, f + 1) == Some(unit)
  {
    var s := " " + unit + more;
    assert t[f] == s[0] == ' ';
    assert t[f + 1..f + 3] == s[1..3] == unit;
    assert t[f + 1] == unit[0];
    SkipRegexSpaceStops(t, f, f + 1);
    UnitAtLayout(t, f + 1, unit);
  }

  /** A run of digits at `q` that a non-digit follows is what `DigitEnd` finds. */
  lemma WholeLayout(t: string, q: nat, whole: string, rest: string)
    requires AllDigits(whole) && rest != [] && !IsDigit(rest[0])
    requires q <= |t| && t[q..] == whole + rest
    ensures DigitEnd(t, q) == q + |whole| && t[q..q + |whole|] == whole && t[q + |whole|..] == rest
  {
    var s := whole + rest;
    assert t[q..q + |whole|] == s[..|whole|] == whole;
    assert t[q + |whole|..] == s[|whole|..] == rest;
    assert t[q + |whole|] == rest[0];
    DigitRunAt(t, q, whole);
  }

  /** A space at `e` means there is no fraction. */
  lemma NoFractionLayout(t: string, e: nat)
    requires e < |t| && t[e] == ' '
    ensures FractionEnd(t, e) == e
  {
  }

  /** `SizeAt` in terms of where its steps stop. */
  lemma SizeAtSteps(t: string, i: nat, q: nat, e: nat, f: nat, u: nat, unit: string)
    requires IsAt(t, Disk, i)
    requires SkipRegexSpace(t, i + |Disk|) == q
    requires DigitEnd(t, q) == e && q < e
    requires FractionEnd(t, e) == f
    requires SkipRegexSpace(t, f) == u
    requires UnitAt(t, u) == Some(unit)
    ensures SizeAt(t, i) == Some(SizeText(t[q..e], if f == e then "" else t[e + 1..f], unit))
  {
  }

  /** A size without a fraction, one space after the marker. */
  lemma SizeAtWhole(t: string, i: nat, whole: string, unit: string, more: string)
    requires whole != [] && AllDigits(whole) && IsUnit(unit)
    requires IsAt(t, Disk, i) && i + |Disk| < |t| && t[i + |Disk|] == ' '
    requires t[i + |Disk| + 1..] == whole + (" " + unit + more)
    ensures SizeAt(t, i) == Some(SizeText(whole, "", unit))
  {
    var q := i + |Disk| + 1;
    var e := q + |whole|;
    var rest := " " + unit + more;
    assert SkipRegexSpace(t, i + |Disk|) == q by {
      assert t[q] == t[q..][0] == whole[0];
      SkipRegexSpaceStops(t, i + |Disk|, q);
    }
    assert DigitEnd(t, q) == e && t[q..e] == whole && t[e..] == rest by {
      WholeLayout(t, q, whole, rest);
    }
    assert FractionEnd(t, e) == e && SkipRegexSpace(t, e) == e + 1 && UnitAt(t, e + 1) == Some(unit) by {
      assert t[e] == t[e..][0] == ' ';
      NoFractionLayout(t, e);
      UnitLayout(t, e, unit, more);
    }
    SizeAtSteps(t, i, q, e, e, e + 1, unit);
  }

  /** A size with a fraction, one space after the marker. */
  lemma SizeAtFraction(t: string, i: nat, whole: string, fraction: string, unit: string, more: string)
    requires whole != [] && AllDigits(whole) && fraction != [] && AllDigits(fraction) && IsUnit(unit)
    requires IsAt(t, Disk, i) && i + |Disk| < |t| && t[i + |Disk|] == ' '
    requires t[i + |Disk| + 1..] == whole + ("." + fraction + (" " + unit + more))
    ensures SizeAt(t, i) == Some(SizeText(whole, fraction, unit))
  {
    var j := i + |Disk|;
    var q := j + 1;
    var e := q + |whole|;
    var f := e + 1 + |fraction|;
    FractionSizeIndices(t, q, e, f, whole, fraction, unit, more);
    FractionScannerStops(t, j, q, e, f, whole, fraction, unit);
    SizeAtSteps(t, i, q, e, f, f + 1, unit);
  }

  /** Where each code point of `whole.fraction unit` lies when the text goes on with it from `q`. */
  lemma FractionSizeIndices(t: string, q: nat, e: nat, f: nat, whole: string, fraction: string, unit: string, more: string)
    requires IsUnit(unit) && e == q + |whole| && f == e + 1 + |fraction|
    requires q <= |t| && t[q..] == whole + ("." + fraction + (" " + unit + more))
    ensures f + 3 <= |t|
    ensures forall m :: 0 <= m < |whole| ==> t[q + m] == whole[m]
    ensures t[e] == '.'
    ensures forall m :: 0 <= m < |fraction| ==> t[e + 1 + m] == fraction[m]
    ensures t[f] == ' ' && t[f + 1] == unit[0] && t[f + 2] == unit[1]
  {
    var s := whole + ("." + fraction + (" " + unit + more));
    assert forall m :: 0 <= m < |s| ==> t[q + m] == s[m];
  }

  /** A space at `j`, then `whole.fraction unit` code point by code point: where each scanner stops. */
  lemma FractionScannerStops(t: string, j: nat, q: nat, e: nat, f: nat, whole: string, fraction: string, unit: string)
    requires whole != [] && AllDigits(whole) && fraction != [] && AllDigits(fraction) && IsUnit(unit)
    requires q == j + 1 && e == q + |whole| && f == e + 1 + |fraction| && f + 3 <= |t|
    requires t[j] == ' '
    requires forall m :: 0 <= m < |whole| ==> t[q + m] == whole[m]
    requires t[e] == '.'
    requires forall m :: 0 <= m < |fraction| ==> t[e + 1 + m] == fraction[m]
    requires t[f] == ' ' && t[f + 1] == unit[0] && t[f + 2] == unit[1]
    ensures SkipRegexSpace(t, j) == q && DigitEnd(t, q) == e && t[q..e] == whole && q < e
    ensures FractionEnd(t, e) == f && t[e + 1..f] == fraction
    ensures SkipRegexSpace(t, f) == f + 1 && UnitAt(t, f + 1) == Some(unit)
  {
    ScanDigits(t, q, e, whole);
    SkipRegexSpaceStops(t, j, q);
    ScanDigits(t, e + 1, f, fraction);
    assert FractionEnd(t, e) == f;
    SkipRegexSpaceStops(t, f, f + 1);
    UnitAtChars(t, f + 1, unit);
  }

  /** Digits held code point by code point from `q`, followed by a non-digit, are the run `DigitEnd` finds. */
  lemma ScanDigits(t: string, q: nat, e: nat, digits: string)
    requires digits != [] && AllDigits(digits) && e == q + |digits|
    requires e < |t| && !IsDigit(t[e])
    requires forall m :: 0 <= m < |digits| ==> t[q + m] == digits[m]
    ensures IsDigit(t[q]) && DigitEnd(t, q) == e && t[q..e] == digits
  {
    forall m | q <= m < e ensures IsDigit(t[m]) {
      assert t[q + (m - q)] == digits[m - q];
    }
    DigitEndStops(t, q, e);
    SliceOfIndices(t, q, digits);
  }

  /** A text that holds `s` code point by code point from `lo` holds it as a slice. */
  lemma SliceOfIndices(t: string, lo: nat, s: string)
    requires lo + |s| <= |t| && forall m :: 0 <= m < |s| ==> t[lo + m] == s[m]
    ensures t[lo..lo + |s|] == s
  {
    forall m | 0 <= m < |s| ensures t[lo..lo + |s|][m] == s[m] {
      assert t[lo..lo + |s|][m] == t[lo + m];
    }
  }

  /** The two code points of a unit at `u` are what `(GB|MB|kB)` reads there. */
  lemma UnitAtChars(t: string, u: nat, unit: string)
    requires IsUnit(unit) && u + 2 <= |t| && t[u] == unit[0] && t[u + 1] == unit[1]
    ensures UnitAt(t, u) == Some(unit)
  {
    assert t[u..u + 2] == unit;
    UnitAtLayout(t, u, unit);
  }

  /** The disk marker, a space and a size as the search page writes it are read as that size. */
  lemma SizeAtLayout(t: string, i: nat, whole: string, fraction: string, unit: string, more: string)
    requires whole != [] && AllDigits(whole) && AllDigits(fraction) && IsUnit(unit)
    requires IsAt(t, Disk, i) && i + |Disk| <= |t|
    requires t[i + |Disk|..] == " " + SizeString(whole, fraction, unit) + more
    ensures SizeAt(t, i) == Some(SizeText(whole, fraction, unit))
  {
    var s := SizeString(whole, fraction, unit) + more;
    var q := i + |Disk| + 1;
    assert t[i + |Disk|] == ' ' && t[q..] == s by {
      assert " " + SizeString(whole, fraction, unit) + more == " " + s;
    }
    if fraction == [] {
      assert s == whole + (" " + unit + more);
      SizeAtWhole(t, i, whole, unit, more);
    } else {
      assert s == whole + ("." + fraction + (" " + unit + more));
      SizeAtFraction(t, i, whole, fraction, unit, more);
    }
  }

  /** The description's head before the disk marker holds no disk marker when the title holds none. */
  lemma SizeHeadLacksDisk(title: string)
    requires !Contains(title, Disk)
    ensures !Contains(Folder + " " + title + "\n", Disk)
  {
    assert !IsAt(Folder, Disk, 0) by {
      assert Folder[2] != Disk[2];
    }
    assert !Contains(Folder, Disk);
    NotContainsHead(" ", Disk);
    NotContainsHead("\n", Disk);
    NotContainsJoin(Folder, " ", Disk);
    NotContainsJoin(Folder + " ", title, Disk);
    NotContainsJoin(Folder + " " + title, "\n", Disk);
  }

  /** The first size match of a text whose head holds no disk marker is the size right after the head. */
  lemma SizeTextFromLayout(pre: string, whole: string, fraction: string, unit: string, more: string)
    requires whole != [] && AllDigits(whole) && AllDigits(fraction) && IsUnit(unit)
    requires !Contains(pre, Disk) && (pre == [] || pre[|pre| - 1] !in Disk)
    ensures SizeTextFrom(pre + Disk + " " + SizeString(whole, fraction, unit) + more, 0) == Some(SizeText(whole, fraction, unit))
  {
    var d := pre + Disk + " " + SizeString(whole, fraction, unit) + more;
    var t0 := Disk + (" " + SizeString(whole, fraction, unit) + more);
    assert d == pre + t0;
    assert d[|pre|..] == t0;
    assert IsAt(d, Disk, |pre|) by {
      assert d[|pre|..|pre| + |Disk|] == t0[..|Disk|] == Disk;
    }
    assert d[|pre| + |Disk|..] == t0[|Disk|..];
    SizeAtLayout(d, |pre|, whole, fraction, unit, more);
    NoEarlierOccurrence(pre, Disk, t0);
    SizeTextFromSkip(d, 0, |pre|);
  }

  /** What follows the size in a description. */
  function AfterSize(res: PrehrajResult, sourceRes: string): string {
    if sourceRes != "" then " " + Bullet + " " + Timer + " " + res.duration + "\n" + Gear + " " + SourceTag + " " + DisplaySource(sourceRes)
    else " " + Bullet + " " + Timer + " " + res.duration
  }

  lemma AppendAssoc(a: string, b: string, c: string)
    ensures a + b + c == a + (b + c)
  {
  }

  /** The description is its head, the disk marker, a space, the size and the rest. */
  lemma DescriptionAroundSize(res: PrehrajResult, sourceRes: string)
    ensures Description(res, sourceRes) == Folder + " " + res.title + "\n" + Disk + " " + res.size + AfterSize(res, sourceRes)
  {
    var a := Folder + " " + res.title + "\n" + Disk + " " + res.size;
    var m1 := " ";
    var m2 := m1 + Bullet;
    AppendAssoc(a, m1, Bullet);
    var m3 := m2 + " ";
    AppendAssoc(a, m2, " ");
    var m4 := m3 + Timer;
    AppendAssoc(a, m3, Timer);
    var m5 := m4 + " ";
    AppendAssoc(a, m4, " ");
    var m6 := m5 + res.duration;
    AppendAssoc(a, m5, res.duration);
    assert HitLines(res) == a + m6;
    if sourceRes != "" {
      var m7 := m6 + "\n";
      AppendAssoc(a, m6, "\n");
      var m8 := m7 + Gear;
      AppendAssoc(a, m7, Gear);
      var m9 := m8 + " ";
      AppendAssoc(a, m8, " ");
      var m10 := m9 + SourceTag;
      AppendAssoc(a, m9, SourceTag);
      var m11 := m10 + " ";
      AppendAssoc(a, m10, " ");
      var m12 := m11 + DisplaySource(sourceRes);
      AppendAssoc(a, m11, DisplaySource(sourceRes));
      assert AfterSize(res, sourceRes) == m12;
    }
  }

  /** `getSize` of a text whose first match is known is what that match is worth. */
  lemma SizeMBOfMatch(t: string, m: SizeText)
    requires AllDigits(m.whole) && AllDigits(m.fraction)
    requires SizeTextFrom(t, 0) == Some(m)
    ensures SizeMB(t) == MatchMB(Some(m))
  {
  }

  lemma MatchMBOfSome(whole: string, fraction: string, unit: string)
    requires AllDigits(whole) && AllDigits(fraction)
    ensures MatchMB(Some(SizeText(whole, fraction, unit))) == DecimalReal(whole, fraction) * UnitFactor(unit)
  {
  }

  /** The size written into the description ranks as its value in MB, when the hit's title holds no disk marker. */
  lemma SizeMBOfDescription(res: PrehrajResult, sourceRes: string, whole: string, fraction: string, unit: string)
    requires whole != [] && AllDigits(whole) && AllDigits(fraction) && IsUnit(unit)
    requires res.size == SizeString(whole, fraction, unit)
    requires !Contains(res.title, Disk)
    ensures SizeMB(Description(res, sourceRes)) == DecimalReal(whole, fraction) * UnitFactor(unit)
  {
    var pre := Folder + " " + res.title + "\n";
    DescriptionAroundSize(res, sourceRes);
    SizeHeadLacksDisk(res.title);
    assert pre[|pre| - 1] == '\n';
    SizeTextFromLayout(pre, whole, fraction, unit, AfterSize(res, sourceRes));
    SizeMBOfMatch(Description(res, sourceRes), SizeText(whole, fraction, unit));
    MatchMBOfSome(whole, fraction, unit);
  }
}
