/**
 * The ordering of the answered streams (main.go:930-1023): four keys read back
 * out of each stream's name and description by hand-written scanners for the
 * handler's regular expressions, compared lexicographically, best first, by
 * `sort.Slice`.
 */
module Ranking {
  import opened Wrappers
  import opened Text
  import opened Streams
  import opened Compose

  // ------------------------------------------------------------------ getRes

  /** `Source:\s*<word>` matches at `i`. */
  predicate TagWordAt(t: string, word: string, i: int) {
    IsAt(t, SourceTag, i) && IsAt(t, word, SkipRegexSpace(t, i + |SourceTag|))
  }

  /** `MatchString` of `Source:\s*<word>`. */
  predicate HasTagWord(t: string, word: string) {
    exists i :: 0 <= i <= |t| && TagWordAt(t, word, i)
  }

  /** The end of the line that `j` is on: the next newline at or after `j`, or the end of the text. */
  function LineEnd(t: string, j: nat): (e: nat)
    requires j <= |t|
    ensures j <= e <= |t|
    ensures forall k :: j <= k < e ==> t[k] != '\n'
    ensures e < |t| ==> t[e] == '\n'
    decreases |t| - j
  {
    if j < |t| && t[j] != '\n' then LineEnd(t, j + 1) else j
  }

  /** `x\s*(\d+)` at `p`: the whole run of digits after the `x` and any spaces. */
  function HeightAt(t: string, p: nat): (d: Option<string>)
    requires p < |t|
    ensures d.Some? ==> t[p] == 'x' && d.value != [] && AllDigits(d.value)
  {
    if t[p] != 'x' then None
    else
      var q := SkipRegexSpace(t, p + 1);
      if q < |t| && IsDigit(t[q]) then Some(t[q..DigitEnd(t, q)]) else None
  }

  /**
   * `.*x\s*(\d+)` on the line from `lo` to `hi`: `.` stops at a newline and
   * the greedy `.*` gives back as little as it can, so the last `x` that is
   * followed by digits wins.
   */
  function LastHeight(t: string, lo: nat, hi: nat): (d: Option<string>)
    requires lo <= hi <= |t|
    ensures d.Some? ==> exists p :: lo <= p < hi && HeightAt(t, p) == d && NoHeightBetween(t, p + 1, hi)
    ensures d.None? ==> NoHeightBetween(t, lo, hi)
    decreases hi - lo
  {
    if hi == lo then None
    else if HeightAt(t, hi - 1).Some? then HeightAt(t, hi - 1)
    else
      NoHeightExtends(t, hi);
      LastHeight(t, lo, hi - 1)
  }

  /** A position without a height extends every stretch without one that ends right before it. */
  lemma NoHeightExtends(t: string, hi: nat)
    requires 0 < hi <= |t| && HeightAt(t, hi - 1).None?
    ensures forall a: nat :: a < hi && NoHeightBetween(t, a, hi - 1) ==> NoHeightBetween(t, a, hi)
  {
  }

  /** No position from `a` up to `hi` has a height. */
  predicate NoHeightBetween(t: string, a: nat, hi: nat)
    requires hi <= |t|
  {
    forall p :: a <= p < hi ==> HeightAt(t, p).None?
  }

  /** A height at `p` is the whole run of digits after the `x` at `p` and the white space that follows it. */
  lemma HeightAtShape(t: string, p: nat)
    requires p < |t| && HeightAt(t, p).Some?
    ensures var d := HeightAt(t, p).value; var q := SkipRegexSpace(t, p + 1);
      && t[p] == 'x'
      && (forall m :: p < m < q ==> IsRegexSpace(t[m]))
      && q + |d| <= |t| && t[q..q + |d|] == d && AllDigits(d) && d != []
      && (q + |d| < |t| ==> !IsDigit(t[q + |d|]))
  {
  }

  /** `x` at `p`, white space up to `q`, digits from `q` up to `e` and no digit at `e`: the height is those digits. */
  lemma HeightAtRun(t: string, p: nat, q: nat, e: nat)
    requires p < q < e <= |t| && t[p] == 'x'
    requires forall m :: p < m < q ==> IsRegexSpace(t[m])
    requires forall m :: q <= m < e ==> IsDigit(t[m])
    requires e < |t| ==> !IsDigit(t[e])
    ensures HeightAt(t, p) == Some(t[q..e])
  {
    SkipRegexSpaceStops(t, p + 1, q);
    DigitEndStops(t, q, e);
  }

  /** `x`, white space, then a whole run of digits: the height is those digits. */
  lemma HeightAtLayout(pre: string, sp: string, digits: string, post: string)
    requires forall m :: 0 <= m < |sp| ==> IsRegexSpace(sp[m])
    requires digits != [] && AllDigits(digits)
    requires post == [] || !IsDigit(post[0])
    ensures HeightAt(pre + "x" + sp + digits + post, |pre|) == Some(digits)
  {
    var t := pre + "x" + sp + digits + post;
    var p, q := |pre|, |pre| + 1 + |sp|;
    var e := q + |digits|;
    assert t == pre + ("x" + (sp + (digits + post)));
    assert forall m :: p < m < q ==> IsRegexSpace(t[m]) by {
      forall m | p < m < q ensures IsRegexSpace(t[m]) {
        assert t[m] == sp[m - p - 1];
      }
    }
    assert forall m :: q <= m < e ==> IsDigit(t[m]) by {
      forall m | q <= m < e ensures IsDigit(t[m]) {
        assert t[m] == digits[m - q];
      }
    }
    if e < |t| {
      assert t[e] == post[0];
    }
    HeightAtRun(t, p, q, e);
    assert t[q..e] == digits;
  }

  /** The last position on the line that has a height gives the line's height. */
  lemma {:induction false} LastHeightIs(t: string, lo: nat, hi: nat, p: nat)
    requires lo <= p < hi <= |t|
    requires HeightAt(t, p).Some?
    requires NoHeightBetween(t, p + 1, hi)
    ensures LastHeight(t, lo, hi) == HeightAt(t, p)
    decreases hi - lo
  {
    if p < hi - 1 {
      NoHeightShrinks(t, p + 1, hi);
      LastHeightIs(t, lo, hi - 1, p);
    }
  }

  lemma NoHeightShrinks(t: string, a: nat, hi: nat)
    requires a < hi <= |t| && NoHeightBetween(t, a, hi)
    ensures HeightAt(t, hi - 1).None? && NoHeightBetween(t, a, hi - 1)
  {
  }

  /** `FindStringSubmatch` of `Source:.*x\s*(\d+)` from `i` on: the capture of the leftmost `Source:` that starts a match. */
  function RawHeightFrom(t: string, i: nat): Option<string>
    requires i <= |t|
    decreases |t| - i
  {
    if i == |t| then None
    else if IsAt(t, SourceTag, i) && LastHeight(t, i + |SourceTag|, LineEnd(t, i + |SourceTag|)).Some? then
      LastHeight(t, i + |SourceTag|, LineEnd(t, i + |SourceTag|))
    else RawHeightFrom(t, i + 1)
  }

  /** `getRes`: 2160 for `Source: 4K`, else 1080 for `Source: 1080p`, else the raw height when `strconv.Atoi` takes it, else 0. */
  function SourceRes(title: string): int {
    if HasTagWord(title, "4K") then 2160
    else if HasTagWord(title, "1080p") then 1080
    else
      var raw := RawHeightFrom(title, 0);
      if raw.Some? && Atoi(raw.value).Some? then Atoi(raw.value).value else 0
  }

  /** Positions before `k` where no `Source:` starts are skipped. */
  lemma {:induction false} RawHeightFromSkip(t: string, i: nat, k: nat)
    requires i <= k <= |t|
    requires forall j :: i <= j < k ==> !IsAt(t, SourceTag, j)
    ensures RawHeightFrom(t, i) == RawHeightFrom(t, k)
    decreases k - i
  {
    if i < k {
      RawHeightFromSkip(t, i + 1, k);
    }
  }

  /** Without any `Source:` from `i` on, there is no raw height. */
  lemma {:induction false} RawHeightFromNone(t: string, i: nat)
    requires i <= |t|
    requires forall j :: i <= j ==> !IsAt(t, SourceTag, j)
    ensures RawHeightFrom(t, i) == None
    decreases |t| - i
  {
    if i < |t| {
      RawHeightFromNone(t, i + 1);
    }
  }

  // ------------------------------------------------------------------ getStreamRes

  /** `<marker>\s+(\d{3,4})p` at `i`: one or more spaces, then a run of three or four digits right before a `p`. */
  function StreamResAt(n: string, i: nat): (r: Option<int>)
    requires IsAt(n, Marker, i)
  {
    var j := i + |Marker|;
    var q := SkipRegexSpace(n, j);
    var e := DigitEnd(n, q);
    // strconv.Atoi of three or four digits cannot fail
    if q > j && 3 <= e - q <= 4 && e < |n| && n[e] == 'p' then Some(DigitsValue(n[q..e])) else None
  }

  /** `getStreamRes` from `i` on: the value at the leftmost marker that starts a match, else 0. */
  function StreamResFrom(n: string, i: nat): int
    requires i <= |n|
    decreases |n| - i
  {
    if i == |n| then 0
    else if IsAt(n, Marker, i) && StreamResAt(n, i).Some? then StreamResAt(n, i).value
    else StreamResFrom(n, i + 1)
  }

  /** `getStreamRes`. */
  function StreamRes(name: string): int {
    StreamResFrom(name, 0)
  }

  /** Positions before `k` that start no match are skipped. */
  lemma {:induction false} StreamResFromSkip(n: string, i: nat, k: nat)
    requires i <= k <= |n|
    requires forall j :: i <= j < k ==> !IsAt(n, Marker, j)
    ensures StreamResFrom(n, i) == StreamResFrom(n, k)
    decreases k - i
  {
    if i < k {
      StreamResFromSkip(n, i + 1, k);
    }
  }

  // ------------------------------------------------------------------ getSize

  /** The captures of `<disk>\s*(\d+(?:\.\d+)?)\s*(GB|MB|kB)`: the whole digits, the fraction digits (empty without a point), the unit. */
  datatype SizeText = SizeText(whole: string, fraction: string, unit: string)

  predicate IsUnit(u: string) {
    u == "GB" || u == "MB" || u == "kB"
  }

  /** `(?:\.\d+)?` after the whole digits ending at `e`: the end of the fraction, or `e` when there is none. */
  function FractionEnd(t: string, e: nat): (f: nat)
    requires e <= |t|
    ensures e <= f <= |t|
    ensures f != e ==> e + 1 < f && t[e] == '.' && forall m :: e + 1 <= m < f ==> IsDigit(t[m])
  {
    if e + 1 < |t| && t[e] == '.' && IsDigit(t[e + 1]) then DigitEnd(t, e + 1) else e
  }

  /** `(GB|MB|kB)` at `u`. */
  function UnitAt(t: string, u: nat): (r: Option<string>)
    ensures r.Some? ==> IsUnit(r.value) && IsAt(t, r.value, u)
  {
    if IsAt(t, "GB", u) then Some("GB")
    else if IsAt(t, "MB", u) then Some("MB")
    else if IsAt(t, "kB", u) then Some("kB")
    else None
  }

  /**
   * The size pattern at `i`: spaces, the whole digits `t[q..e]`, the fraction
   * `t[e + 1..f]` when there is one, spaces, the unit. Backing off from the
   * longest run of digits or from the fraction never helps, since a digit or a
   * point can start neither a space nor a unit.
   */
  function SizeAt(t: string, i: nat): (m: Option<SizeText>)
    requires IsAt(t, Disk, i)
    ensures m.Some? ==> m.value.whole != [] && AllDigits(m.value.whole) && AllDigits(m.value.fraction) && IsUnit(m.value.unit)
  {
    var q := SkipRegexSpace(t, i + |Disk|);
    var e := DigitEnd(t, q);
    var f := FractionEnd(t, e);
    var u := SkipRegexSpace(t, f);
    var unit := UnitAt(t, u);
    if q < e && unit.Some? then Some(SizeText(t[q..e], if f == e then "" else t[e + 1..f], unit.value)) else None
  }

  /** The leftmost size match from `i` on. */
  function SizeTextFrom(t: string, i: nat): (m: Option<SizeText>)
    requires i <= |t|
    ensures m.Some? ==> m.value.whole != [] && AllDigits(m.value.whole) && AllDigits(m.value.fraction) && IsUnit(m.value.unit)
    decreases |t| - i
  {
    if i == |t| then None
    else if IsAt(t, Disk, i) && SizeAt(t, i).Some? then SizeAt(t, i)
    else SizeTextFrom(t, i + 1)
  }

  /** Positions before `k` that start no match are skipped. */
  lemma {:induction false} SizeTextFromSkip(t: string, i: nat, k: nat)
    requires i <= k <= |t|
    requires forall j :: i <= j < k ==> !IsAt(t, Disk, j)
    ensures SizeTextFrom(t, i) == SizeTextFrom(t, k)
    decreases k - i
  {
    if i < k {
      SizeTextFromSkip(t, i + 1, k);
    }
  }

  function Pow10(n: nat): (p: nat)
    ensures p >= 1
  {
    if n == 0 then 1 else 10 * Pow10(n - 1)
  }

  /** The digits of `a` then `b` are worth `a` shifted by the length of `b`, plus `b`. */
  lemma {:induction false} DigitsValueAppend(a: string, b: string)
    requires AllDigits(a) && AllDigits(b)
    ensures AllDigits(a + b)
    ensures DigitsValue(a + b) == DigitsValue(a) * Pow10(|b|) + DigitsValue(b)
    decreases |b|
  {
    if b == [] {
      assert a + b == a;
    } else {
      var n := |b| - 1;
      var b' := b[..n];
      assert AllDigits(b') by {
        assert forall m :: 0 <= m < n ==> b'[m] == b[m];
      }
      DigitsValueAppend(a, b');
      var ab := a + b;
      assert AllDigits(ab) by {
        assert forall m :: 0 <= m < |ab| ==> ab[m] == if m < |a| then a[m] else b[m - |a|];
      }
      assert DigitsValue(ab) == DigitsValue(a + b') * 10 + DigitValue(b[n]) by {
        assert ab[..|ab| - 1] == a + b';
        assert ab[|ab| - 1] == b[n];
      }
      ShiftDigit(DigitsValue(a), Pow10(|b'|), DigitsValue(b'), DigitValue(b[n]));
    }
  }

  /** Appending a digit to both readings of a concatenation. */
  lemma ShiftDigit(x: nat, p: nat, y: nat, d: nat)
    ensures (x * p + y) * 10 + d == x * (10 * p) + (y * 10 + d)
  {
  }

  /** `strconv.ParseFloat` of `whole.fraction`, exactly: the digits of both read as one number, divided by ten to the fraction's length. */
  function DecimalReal(whole: string, fraction: string): (v: real)
    requires AllDigits(whole) && AllDigits(fraction)
    ensures AllDigits(whole + fraction) && v == DigitsValue(whole + fraction) as real / Pow10(|fraction|) as real
    ensures DigitsValue(whole) as real <= v < (DigitsValue(whole) + 1) as real
  {
    DigitsValueAppend(whole, fraction);
    DigitsBelow(fraction);
    ScaleBack(DigitsValue(whole), DigitsValue(fraction), Pow10(|fraction|), DigitsValue(whole + fraction));
    DigitsValue(whole) as real + DigitsValue(fraction) as real / Pow10(|fraction|) as real
  }

  /** A run of `n` digits is worth less than `10^n`. */
  lemma {:induction false} DigitsBelow(s: string)
    requires AllDigits(s)
    ensures DigitsValue(s) < Pow10(|s|)
    decreases |s|
  {
    if s != [] {
      var n := |s| - 1;
      assert AllDigits(s[..n]) by {
        assert forall m :: 0 <= m < n ==> s[..n][m] == s[m];
      }
      DigitsBelow(s[..n]);
    }
  }

  /** A whole part plus a fraction over `p` is the integer reading over `p`, and a fraction below `p` adds less than one. */
  lemma ScaleBack(w: nat, f: nat, p: nat, total: nat)
    requires 0 < p && f < p && total == w * p + f
    ensures w as real + f as real / p as real == total as real / p as real
    ensures w as real <= w as real + f as real / p as real < (w + 1) as real
  {
    assert f as real / p as real < 1.0;
  }

  /** What a unit is worth in MB. */
  function UnitFactor(unit: string): real {
    if unit == "GB" then 1024.0 else if unit == "MB" then 1.0 else if unit == "kB" then 1.0 / 1024.0 else 0.0
  }

  /** What a match is worth in MB; 0 without one. */
  function MatchMB(m: Option<SizeText>): real
    requires m.Some? ==> AllDigits(m.value.whole) && AllDigits(m.value.fraction)
  {
    if m.None? then 0.0
    else DecimalReal(m.value.whole, m.value.fraction) * UnitFactor(m.value.unit)
  }

  /** `getSize`: the size in MB of the first match, or 0 without a match. */
  function SizeMB(title: string): real {
    MatchMB(SizeTextFrom(title, 0))
  }

  // ------------------------------------------------------------------ the comparator

  /** The four keys of a stream, in the order they are compared. */
  datatype RankKey = RankKey(sourceRes: int, streamRes: int, sizeMB: real, hasYear: bool)

  function KeyOf(s: Stream, metaYear: string): RankKey {
    RankKey(SourceRes(s.title), StreamRes(s.name), SizeMB(s.title), Contains(s.title, metaYear))
  }

  /** The `sort.Slice` less function on keys: the first key that differs decides, the larger one first, a year before none; a full tie is not less. */
  predicate Outranks(a: RankKey, b: RankKey) {
    if a.sourceRes != b.sourceRes then a.sourceRes > b.sourceRes
    else if a.streamRes != b.streamRes then a.streamRes > b.streamRes
    else if a.sizeMB != b.sizeMB then a.sizeMB > b.sizeMB
    else if a.hasYear != b.hasYear then a.hasYear
    else false
  }

  /** `a` may come before `b`: lexicographically at least as good, key by key. */
  predicate KeyAtLeast(a: RankKey, b: RankKey) {
    || a.sourceRes > b.sourceRes
    || (a.sourceRes == b.sourceRes && a.streamRes > b.streamRes)
    || (a.sourceRes == b.sourceRes && a.streamRes == b.streamRes && a.sizeMB > b.sizeMB)
    || (a.sourceRes == b.sourceRes && a.streamRes == b.streamRes && a.sizeMB == b.sizeMB && (a.hasYear || !b.hasYear))
  }

  /** Not being outranked is being lexicographically at least as good; two keys neither outranks are equal. */
  lemma OutranksOrder(a: RankKey, b: RankKey, c: RankKey)
    ensures !Outranks(b, a) <==> KeyAtLeast(a, b)
    ensures !Outranks(a, a)
    ensures Outranks(a, b) ==> !Outranks(b, a)
    ensures Outranks(a, b) && Outranks(b, c) ==> Outranks(a, c)
    ensures !Outranks(a, b) && !Outranks(b, a) ==> a == b
  {
  }

  /** The comparator on streams. */
  function Less(metaYear: string): (Stream, Stream) -> bool {
    (x: Stream, y: Stream) => Outranks(KeyOf(x, metaYear), KeyOf(y, metaYear))
  }

  // ------------------------------------------------------------------ sort.Slice

  /** What `sort.Slice` needs of its less function: no two elements less than each other, and "not less" chains. */
  ghost predicate StrictWeakOrder(less: (Stream, Stream) -> bool) {
    && (forall x, y :: less(x, y) ==> !less(y, x))
    && (forall x, y, z :: !less(x, y) && !less(y, z) ==> !less(x, z))
  }

  /** No element of the first `n` is less than one before it. */
  ghost predicate SortedPrefix(s: seq<Stream>, n: int, less: (Stream, Stream) -> bool) {
    forall x, y :: 0 <= x < y < n && y < |s| ==> !less(s[y], s[x])
  }

  lemma LessIsStrictWeakOrder(metaYear: string)
    ensures StrictWeakOrder(Less(metaYear))
  {
    var less := Less(metaYear);
    forall x, y | less(x, y) ensures !less(y, x) {
      OutranksOrder(KeyOf(x, metaYear), KeyOf(y, metaYear), KeyOf(y, metaYear));
    }
    forall x, y, z | !less(x, y) && !less(y, z) ensures !less(x, z) {
      var kx, ky, kz := KeyOf(x, metaYear), KeyOf(y, metaYear), KeyOf(z, metaYear);
      OutranksOrder(ky, kx, kz);
      OutranksOrder(kz, ky, kx);
      OutranksOrder(kz, kx, kx);
    }
  }

  /** While `s[j]` moves left: everything up to `i` is in order except against `s[j]`, and nothing after `s[j]` is less than it. */
  ghost predicate Inserting(s: seq<Stream>, i: int, j: int, less: (Stream, Stream) -> bool) {
    && 0 <= j <= i < |s|
    && (forall x, y :: 0 <= x < y <= i && x != j && y != j ==> !less(s[y], s[x]))
    && (forall y :: j < y <= i ==> !less(s[y], s[j]))
  }

  function Swap(s: seq<Stream>, j: int): (r: seq<Stream>)
    requires 0 < j < |s|
    ensures |r| == |s| && r[j - 1] == s[j] && r[j] == s[j - 1]
    ensures forall k :: 0 <= k < |s| && k != j - 1 && k != j ==> r[k] == s[k]
  {
    s[j - 1 := s[j]][j := s[j - 1]]
  }

  /** Swapping `s[j]` with a predecessor it is less than keeps the insertion invariant, one place to the left. */
  lemma SwapStep(s: seq<Stream>, i: int, j: int, less: (Stream, Stream) -> bool)
    requires StrictWeakOrder(less)
    requires Inserting(s, i, j, less) && j > 0 && less(s[j], s[j - 1])
    ensures Inserting(Swap(s, j), i, j - 1, less)
  {
    var r := Swap(s, j);
    assert !less(s[j - 1], s[j]);
    forall x, y | 0 <= x < y <= i && x != j - 1 && y != j - 1 ensures !less(r[y], r[x]) {
      if y == j {
        assert r[y] == s[j - 1] && r[x] == s[x];
      } else if x == j {
        assert r[x] == s[j - 1] && r[y] == s[y];
      } else {
        assert r[x] == s[x] && r[y] == s[y];
      }
    }
  }

  /** Once `s[j]` is not less than its predecessor, the first `i + 1` elements are in order. */
  lemma InsertDone(s: seq<Stream>, i: int, j: int, less: (Stream, Stream) -> bool)
    requires StrictWeakOrder(less)
    requires Inserting(s, i, j, less) && (j == 0 || !less(s[j], s[j - 1]))
    ensures SortedPrefix(s, i + 1, less)
  {
    forall x | 0 <= x < j - 1 ensures !less(s[j], s[x]) {
      assert !less(s[j - 1], s[x]);
    }
  }

  /** Moves `a[i]` left past every element it is less than: the first `i` elements were in order and the first `i + 1` are. */
  method InsertAt(a: array<Stream>, i: nat, less: (Stream, Stream) -> bool)
    requires i < a.Length
    requires StrictWeakOrder(less)
    requires SortedPrefix(a[..], i, less)
    modifies a
    ensures SortedPrefix(a[..], i + 1, less)
    ensures forall k :: i < k < a.Length ==> a[k] == old(a[k])
    ensures multiset(a[..]) == old(multiset(a[..]))
  {
    var j := i;
    while j > 0 && less(a[j], a[j - 1])
      invariant 0 <= j <= i
      invariant forall k :: i < k < a.Length ==> a[k] == old(a[k])
      invariant multiset(a[..]) == old(multiset(a[..]))
      invariant Inserting(a[..], i, j, less)
    {
      ghost var before := a[..];
      SwapStep(before, i, j, less);
      a[j - 1], a[j] := a[j], a[j - 1];
      assert a[..] == Swap(before, j);
      j := j - 1;
    }
    InsertDone(a[..], i, j, less);
  }

  /** `sort.Slice(streams, less)`, as an insertion sort: the elements end up in an order `less` agrees with. */
  method SortSlice(a: array<Stream>, less: (Stream, Stream) -> bool)
    requires StrictWeakOrder(less)
    modifies a
    ensures SortedPrefix(a[..], a.Length, less)
    ensures multiset(a[..]) == old(multiset(a[..]))
  {
    var i := 0;
    while i < a.Length
      invariant 0 <= i <= a.Length
      invariant SortedPrefix(a[..], i, less)
      invariant multiset(a[..]) == old(multiset(a[..]))
    {
      InsertAt(a, i, less);
      i := i + 1;
    }
  }

  /** The final ordering of the handler: a permutation of the streams, best first on (source resolution, stream resolution, size, year). */
  method SortStreams(streams: array<Stream>, metaYear: string)
    modifies streams
    ensures forall i, j :: 0 <= i < j < streams.Length ==> KeyAtLeast(KeyOf(streams[i], metaYear), KeyOf(streams[j], metaYear))
    ensures multiset(streams[..]) == old(multiset(streams[..]))
  {
    LessIsStrictWeakOrder(metaYear);
    SortSlice(streams, Less(metaYear));
    forall i, j | 0 <= i < j < streams.Length
      ensures KeyAtLeast(KeyOf(streams[i], metaYear), KeyOf(streams[j], metaYear))
    {
      assert streams[..][i] == streams[i] && streams[..][j] == streams[j];
      OutranksOrder(KeyOf(streams[i], metaYear), KeyOf(streams[j], metaYear), KeyOf(streams[j], metaYear));
    }
  }
}
