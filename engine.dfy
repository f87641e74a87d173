/**
 * The review aggregation of the backend (backend/analytics/engine.go):
 * keyword theming, per-sentiment theme buckets, average review length and
 * the per-year satisfaction series.
 *
 * Go's float64 arithmetic is modelled with `real`, Go strings with
 * `string` (one `char` per code point).  The keyword groups, loaded from a
 * file at start-up by the source, are a parameter.
 */
module Engine {
  import opened Text

  const DEFAULT_THEME := "Общие впечатления"
  const POSITIVE := "positive"
  const NEGATIVE := "negative"
  const POS_KEY := "Положительные"
  const NEG_KEY := "Отрицательные"
  const STRENGTHS := "Сильные стороны"
  const PROBLEMS := "Проблемные зоны"
  const DEPTH := "Средняя длина отзыва (слов)"
  const DYNAMICS := "Динамика удовлетворенности (%)"

  /** A stored review (backend/models/review.go). */
  datatype Review = Review(id: int, schoolId: int, publishedAt: string, sentiment: string, rawText: string)

  /** Per-year tallies of positive and negative reviews. */
  datatype Stat = Stat(pos: nat, neg: nat)

  /** One point of the satisfaction series. */
  datatype Point = Point(year: string, value: real)

  /** The three payload shapes `Analyze` emits. */
  datatype Payload =
    | Themes(themes: map<string, seq<string>>)
    | Depth(depth: map<string, real>)
    | Series(points: seq<Point>)

  datatype Result = Result(name: string, typ: string, payload: Payload)

  // ---------------------------------------------------------------------
  // Lower-casing (strings.ToLower on Latin and Cyrillic letters)
  // ---------------------------------------------------------------------

  predicate IsUpper(c: char) {
    'A' <= c <= 'Z' || '\U{0400}' <= c <= '\U{042F}'
  }

  /** Basic Latin A-Z, Cyrillic А-Я and the Cyrillic block Ѐ-Џ (Ё among
      them) map to their small letters; everything else is kept. */
  function LowerChar(c: char): (d: char)
    ensures !IsUpper(d)
    ensures !IsUpper(c) ==> d == c
  {
    if 'A' <= c <= 'Z' then (c as int + 32) as char
    else if '\U{0410}' <= c <= '\U{042F}' then (c as int + 0x20) as char
    else if '\U{0400}' <= c <= '\U{040F}' then (c as int + 0x50) as char
    else c
  }

  /** Lower-casing leaves no capital letter and keeps a text that has none;
      it works character by character. */
  function Lower(s: string): (r: string)
    ensures |r| == |s|
    ensures forall i :: 0 <= i < |r| ==> !IsUpper(r[i])
    ensures (forall i :: 0 <= i < |s| ==> !IsUpper(s[i])) ==> r == s
    ensures forall i :: 0 <= i < |s| ==> r[i] == LowerChar(s[i])
  {
    seq(|s|, i requires 0 <= i < |s| => LowerChar(s[i]))
  }

  /** Lower-casing twice is lower-casing once. */
  lemma {:induction false} LowerIdempotent(s: string)
    ensures Lower(Lower(s)) == Lower(s)
  {
  }

  // ---------------------------------------------------------------------
  // Theming
  // ---------------------------------------------------------------------

  /** Some keyword of the group occurs in the (lower-cased) text; an empty
      keyword occurs in every text. */
  predicate Matches(kws: seq<string>, low: string) {
    exists q :: 0 <= q < |kws| && Contains(low, kws[q])
  }

  predicate AnyMatch(keywords: map<string, seq<string>>, low: string) {
    exists t :: t in keywords && Matches(keywords[t], low)
  }

  /** What GetTheme may answer for `text`: a group with a matching keyword
      when there is one (which one is unspecified, because Go visits the
      groups of a map in random order), the default theme otherwise. */
  predicate IsThemeFor(keywords: map<string, seq<string>>, text: string, theme: string)
    ensures IsThemeFor(keywords, text, theme) ==> theme in keywords || theme == DEFAULT_THEME
  {
    var low := Lower(text);
    if AnyMatch(keywords, low) then theme in keywords && Matches(keywords[theme], low)
    else theme == DEFAULT_THEME
  }

  /** The themed lookup: groups in arbitrary order, keywords in list order,
      the first hit wins. */
  method GetTheme(keywords: map<string, seq<string>>, text: string) returns (theme: string)
    ensures IsThemeFor(keywords, text, theme)
  {
    var low := Lower(text);
    var rest := keywords.Keys;
    while rest != {}
      invariant rest <= keywords.Keys
      invariant forall t :: t in keywords && t !in rest ==> !Matches(keywords[t], low)
      decreases |rest|
    {
      var t :| t in rest;
      var kws := keywords[t];
      var j := 0;
      while j < |kws|
        invariant 0 <= j <= |kws|
        invariant forall q :: 0 <= q < j ==> !Contains(low, kws[q])
      {
        if Contains(low, kws[j]) {
          return t;
        }
        j := j + 1;
      }
      rest := rest - {t};
    }
    return DEFAULT_THEME;
  }

  /** The default theme means no keyword matched, unless the default theme
      is itself one of the groups. */
  lemma {:induction false} DefaultMeansNoMatch(keywords: map<string, seq<string>>, text: string, theme: string)
    requires IsThemeFor(keywords, text, theme) && DEFAULT_THEME !in keywords
    ensures theme == DEFAULT_THEME <==> !AnyMatch(keywords, Lower(text))
  {
  }

  // ---------------------------------------------------------------------
  // Words (strings.Fields)
  // ---------------------------------------------------------------------

  /** Length of the leading run of non-space characters. */
  function RunLength(s: string): (n: nat)
    ensures n <= |s|
    ensures forall i :: 0 <= i < n ==> !GoSpace(s[i])
    ensures n < |s| ==> GoSpace(s[n])
  {
    if s == [] || GoSpace(s[0]) then 0 else 1 + RunLength(s[1..])
  }

  /** The maximal runs of non-space characters, in order. */
  function Fields(s: string): (r: seq<string>)
    ensures forall i :: 0 <= i < |r| ==> r[i] != [] && forall c :: c in r[i] ==> !GoSpace(c)
    ensures r == [] <==> forall i :: 0 <= i < |s| ==> GoSpace(s[i])
    decreases |s|
  {
    if s == [] then []
    else if GoSpace(s[0]) then Fields(s[1..])
    else
      var n := RunLength(s);
      [s[..n]] + Fields(s[n..])
  }

  function NonSpace(s: string): string {
    if s == [] then [] else (if GoSpace(s[0]) then [] else [s[0]]) + NonSpace(s[1..])
  }

  function Concat(ss: seq<string>): string {
    if ss == [] then [] else ss[0] + Concat(ss[1..])
  }

  lemma {:induction false} NonSpaceAppend(a: string, b: string)
    ensures NonSpace(a + b) == NonSpace(a) + NonSpace(b)
    decreases |a|
  {
    if a != [] {
      assert (a + b)[1..] == a[1..] + b;
      NonSpaceAppend(a[1..], b);
    } else {
      assert a + b == b;
    }
  }

  lemma {:induction false} NonSpaceOfWord(w: string)
    requires forall c :: c in w ==> !GoSpace(c)
    ensures NonSpace(w) == w
    decreases |w|
  {
    if w != [] {
      assert w[0] in w;
      assert forall c :: c in w[1..] ==> c in w;
      NonSpaceOfWord(w[1..]);
    }
  }

  /** The fields, put back together, are the text without its white space. */
  lemma {:induction false} FieldsCoverText(s: string)
    ensures Concat(Fields(s)) == NonSpace(s)
    decreases |s|
  {
    if s != [] {
      if GoSpace(s[0]) {
        FieldsCoverText(s[1..]);
      } else {
        var n := RunLength(s);
        assert s == s[..n] + s[n..];
        NonSpaceAppend(s[..n], s[n..]);
        NonSpaceOfWord(s[..n]);
        FieldsCoverText(s[n..]);
        var r := Fields(s);
        assert r == [s[..n]] + Fields(s[n..]);
        assert r[1..] == Fields(s[n..]);
      }
    }
  }

  /** The word count used for review depth: no word exactly when the text
      is all white space. */
  function WordCount(s: string): (n: nat)
    ensures n == 0 <==> forall i :: 0 <= i < |s| ==> GoSpace(s[i])
  {
    |Fields(s)|
  }

  // ---------------------------------------------------------------------
  // Years (time.Parse with layout "2006-01-02", then Year())
  // ---------------------------------------------------------------------

  predicate IsLeap(y: int) {
    y % 4 == 0 && (y % 100 != 0 || y % 400 == 0)
  }

  function DaysIn(month: int, year: int): int {
    if month == 2 then (if IsLeap(year) then 29 else 28)
    else if month == 4 || month == 6 || month == 9 || month == 11 then 30
    else 31
  }

  /** Exactly the ten-character dates the layout accepts: four-digit year,
      two-digit month in 1..12, two-digit day within the month. */
  predicate ValidDate(d: string) {
    && |d| == 10
    && IsDigit(d[0]) && IsDigit(d[1]) && IsDigit(d[2]) && IsDigit(d[3])
    && d[4] == '-' && IsDigit(d[5]) && IsDigit(d[6])
    && d[7] == '-' && IsDigit(d[8]) && IsDigit(d[9])
    && 1 <= DigitsValue(d[5..7]) <= 12
    && 1 <= DigitsValue(d[8..10]) <= DaysIn(DigitsValue(d[5..7]), DigitsValue(d[..4]))
  }

  /** A review takes part in the dynamics when its date has ten characters. */
  predicate Dated(r: Review) {
    |r.publishedAt| >= 10
  }

  /** The decimal year of the first ten characters; a date that does not
      parse yields the zero time, whose year is 1. */
  function YearKey(stamp: string): (k: string)
    requires |stamp| >= 10
    ensures k != [] && forall i :: 0 <= i < |k| ==> IsDigit(k[i])
  {
    var d := stamp[..10];
    NatText(if ValidDate(d) then DigitsValue(d[..4]) else 1)
  }

  // ---------------------------------------------------------------------
  // The aggregates Analyze computes, as functions of the review list
  // ---------------------------------------------------------------------

  function Get(m: map<string, seq<string>>, k: string): seq<string> {
    if k in m then m[k] else []
  }

  /** Texts of reviews with sentiment `s`, appended under their themes
      `ts[i]`, in review order. */
  function Bucket(rs: seq<Review>, ts: seq<string>, s: string): map<string, seq<string>>
    requires |ts| == |rs|
  {
    if rs == [] then map[]
    else
      var m := Bucket(rs[..|rs| - 1], ts[..|rs| - 1], s);
      var t := ts[|rs| - 1];
      if rs[|rs| - 1].sentiment == s then m[t := Get(m, t) + [rs[|rs| - 1].rawText]] else m
  }

  /** Reference definition: the texts of the reviews with sentiment `s`
      and theme `t`, in review order. */
  function Matching(rs: seq<Review>, ts: seq<string>, s: string, t: string): seq<string>
    requires |ts| == |rs|
  {
    if rs == [] then []
    else
      Matching(rs[..|rs| - 1], ts[..|rs| - 1], s, t)
      + (if rs[|rs| - 1].sentiment == s && ts[|rs| - 1] == t then [rs[|rs| - 1].rawText] else [])
  }

  /** Number of reviews with sentiment `s`. */
  function Count(rs: seq<Review>, s: string): nat {
    if rs == [] then 0
    else Count(rs[..|rs| - 1], s) + (if rs[|rs| - 1].sentiment == s then 1 else 0)
  }

  /** Total word count of the reviews with sentiment `s`. */
  function WordSum(rs: seq<Review>, s: string): nat {
    if rs == [] then 0
    else WordSum(rs[..|rs| - 1], s) + (if rs[|rs| - 1].sentiment == s then WordCount(rs[|rs| - 1].rawText) else 0)
  }

  /** One review's effect on the per-year tallies. */
  function Tally(m: map<string, Stat>, r: Review): map<string, Stat> {
    if !Dated(r) then m
    else
      var key := YearKey(r.publishedAt);
      var st := if key in m then m[key] else Stat(0, 0);
      if r.sentiment == POSITIVE then m[key := st.(pos := st.pos + 1)]
      else if r.sentiment == NEGATIVE then m[key := st.(neg := st.neg + 1)]
      else m[key := st]
  }

  function Dyn(rs: seq<Review>): map<string, Stat> {
    if rs == [] then map[] else Tally(Dyn(rs[..|rs| - 1]), rs[|rs| - 1])
  }

  /** Reference definition: dated reviews of year `key` with sentiment `s`. */
  function YearCount(rs: seq<Review>, key: string, s: string): nat {
    if rs == [] then 0
    else
      var r := rs[|rs| - 1];
      YearCount(rs[..|rs| - 1], key, s) + (if Dated(r) && YearKey(r.publishedAt) == key && r.sentiment == s then 1 else 0)
  }

  predicate HasYear(rs: seq<Review>, key: string) {
    exists i :: 0 <= i < |rs| && Dated(rs[i]) && YearKey(rs[i].publishedAt) == key
  }

  /** The mean the source stores: the sum divided by the count, or the
      (zero) sum left alone when nothing was counted. */
  function Average(sum: nat, count: nat): real {
    if count > 0 then sum as real / count as real else sum as real
  }

  function DepthOf(rs: seq<Review>): map<string, real> {
    map[POS_KEY := Average(WordSum(rs, POSITIVE), Count(rs, POSITIVE)),
        NEG_KEY := Average(WordSum(rs, NEGATIVE), Count(rs, NEGATIVE))]
  }

  /** Share of positive reviews in percent; 0 for a year without any. */
  function Pct(st: Stat): real {
    if st.pos + st.neg > 0 then st.pos as real / (st.pos + st.neg) as real * 100.0 else 0.0
  }

  predicate Sorted(s: seq<string>) {
    forall i, j :: 0 <= i < j < |s| ==> !Less(s[j], s[i])
  }

  predicate StrictlySorted(s: seq<string>) {
    forall i, j :: 0 <= i < j < |s| ==> Less(s[i], s[j])
  }

  predicate Distinct(s: seq<string>) {
    forall i, j :: 0 <= i < j < |s| ==> s[i] != s[j]
  }

  /** The series: one point per year in ascending order, valued by Pct. */
  predicate SeriesFor(pts: seq<Point>, dyn: map<string, Stat>) {
    && (forall i, j :: 0 <= i < j < |pts| ==> Less(pts[i].year, pts[j].year))
    && (forall i :: 0 <= i < |pts| ==> pts[i].year in dyn && pts[i].value == Pct(dyn[pts[i].year]))
    && (forall k :: k in dyn ==> exists i :: 0 <= i < |pts| && pts[i].year == k)
  }

  /** The part of Analyze's answer that does not depend on the themes:
      four results with fixed names and types, the depth map and the
      satisfaction series of `rs`. */
  predicate ReportShape(rs: seq<Review>, results: seq<Result>) {
    && |results| == 4
    && results[0].name == STRENGTHS && results[0].typ == "bar" && results[0].payload.Themes?
    && results[1].name == PROBLEMS && results[1].typ == "bar" && results[1].payload.Themes?
    && results[2] == Result(DEPTH, "bar", Depth(DepthOf(rs)))
    && results[3].name == DYNAMICS && results[3].typ == "line"
    && results[3].payload.Series? && SeriesFor(results[3].payload.points, Dyn(rs))
  }

  /** What Analyze returns for reviews `rs` themed `ts`. */
  predicate ReportFor(rs: seq<Review>, ts: seq<string>, results: seq<Result>)
    requires |ts| == |rs|
  {
    && ReportShape(rs, results)
    && results[0].payload == Themes(Bucket(rs, ts, POSITIVE))
    && results[1].payload == Themes(Bucket(rs, ts, NEGATIVE))
  }

  /** The names and types of the four results. */
  lemma ReportTypes(rs: seq<Review>, ts: seq<string>, results: seq<Result>)
    requires |ts| == |rs| && ReportFor(rs, ts, results)
    ensures |results| == 4
    ensures results[0].name == STRENGTHS && results[1].name == PROBLEMS
    ensures results[2].name == DEPTH && results[3].name == DYNAMICS
    ensures forall i :: 0 <= i < 3 ==> results[i].typ == "bar"
    ensures results[3].typ == "line"
  {
  }

  // ---------------------------------------------------------------------
  // sort.Strings
  // ---------------------------------------------------------------------

  /** Putting `x` after the elements it does not precede and before the
      first one it precedes keeps a sorted list sorted. */
  lemma InsertSorted(r: seq<string>, j: nat, x: string)
    requires Sorted(r) && j <= |r|
    requires forall k :: 0 <= k < j ==> !Less(x, r[k])
    requires j < |r| ==> Less(x, r[j])
    ensures Sorted(r[..j] + [x] + r[j..])
  {
    var q := r[..j] + [x] + r[j..];
    forall a, b | 0 <= a < b < |q| ensures !Less(q[b], q[a]) {
      if b < j {
        assert q[a] == r[a] && q[b] == r[b];
      } else if a > j {
        assert q[a] == r[a - 1] && q[b] == r[b - 1];
      } else if b == j {
        assert q[a] == r[a] && q[b] == x;
      } else if a < j {
        assert q[a] == r[a] && q[b] == r[b - 1];
      } else {
        assert q[a] == x && q[b] == r[b - 1];
        LessAsymmetric(x, r[j]);
        if b - 1 > j && Less(r[b - 1], x) {
          LessTransitive(r[b - 1], x, r[j]);
        }
      }
    }
  }

  method Insert(r: seq<string>, x: string) returns (q: seq<string>)
    requires Sorted(r)
    ensures Sorted(q) && multiset(q) == multiset(r) + multiset{x}
  {
    var j := 0;
    while j < |r| && !Less(x, r[j])
      invariant 0 <= j <= |r|
      invariant forall k :: 0 <= k < j ==> !Less(x, r[k])
    {
      j := j + 1;
    }
    q := r[..j] + [x] + r[j..];
    assert r == r[..j] + r[j..];
    InsertSorted(r, j, x);
  }

  /** Sorting: an ordered permutation of the input. */
  method SortStrings(a: seq<string>) returns (r: seq<string>)
    ensures Sorted(r) && multiset(r) == multiset(a)
  {
    r := [];
    for i := 0 to |a|
      invariant Sorted(r) && multiset(r) == multiset(a[..i])
    {
      r := Insert(r, a[i]);
      assert a[..i + 1] == a[..i] + [a[i]];
    }
    assert a[..|a|] == a;
  }

  lemma {:induction false} DistinctCount(s: seq<string>, v: string)
    requires Distinct(s)
    ensures multiset(s)[v] <= 1
    decreases |s|
  {
    if s != [] {
      assert s == [s[0]] + s[1..];
      assert Distinct(s[1..]) by {
        forall i, j | 0 <= i < j < |s[1..]| ensures s[1..][i] != s[1..][j] {
          assert s[1..][i] == s[i + 1] && s[1..][j] == s[j + 1];
        }
      }
      DistinctCount(s[1..], v);
      if v == s[0] {
        assert v !in s[1..] by {
          forall k | 0 <= k < |s[1..]| ensures s[1..][k] != v {
            assert s[1..][k] == s[k + 1];
          }
        }
      }
    }
  }

  lemma DuplicateCount(s: seq<string>, i: nat, j: nat)
    requires i < j < |s| && s[i] == s[j]
    ensures multiset(s)[s[i]] >= 2
  {
    assert s == s[..i] + [s[i]] + s[i + 1..j] + [s[j]] + s[j + 1..];
  }

  /** Sorting a list with no repeats gives a strictly ascending list. */
  lemma SortedDistinct(a: seq<string>, r: seq<string>)
    requires Distinct(a) && Sorted(r) && multiset(r) == multiset(a)
    ensures StrictlySorted(r)
  {
    forall i, j | 0 <= i < j < |r| ensures Less(r[i], r[j]) {
      if r[i] == r[j] {
        DuplicateCount(r, i, j);
        DistinctCount(a, r[i]);
      }
      LessTotal(r[i], r[j]);
    }
  }

  // ---------------------------------------------------------------------
  // Properties of the aggregates
  // ---------------------------------------------------------------------

  /** Number of texts over all theme lists. */
  ghost function TotalLen(m: map<string, seq<string>>): nat
    decreases |m|
  {
    if m == map[] then 0
    else
      var k :| k in m;
      |m[k]| + TotalLen(m - {k})
  }

  lemma {:induction false} TotalLenRemove(m: map<string, seq<string>>, k: string)
    requires k in m
    ensures TotalLen(m) == |m[k]| + TotalLen(m - {k})
    decreases |m|
  {
    var j :| j in m && TotalLen(m) == |m[j]| + TotalLen(m - {j});
    if j != k {
      assert (m - {j}) - {k} == (m - {k}) - {j};
      TotalLenRemove(m - {j}, k);
      TotalLenRemove(m - {k}, j);
    }
  }

  /** Every review with sentiment `s` lands in exactly one list: the lists
      hold Count(rs, s) texts between them. */
  lemma {:induction false} BucketTotal(rs: seq<Review>, ts: seq<string>, s: string)
    requires |ts| == |rs|
    ensures TotalLen(Bucket(rs, ts, s)) == Count(rs, s)
    decreases |rs|
  {
    if rs != [] {
      var n := |rs| - 1;
      var m := Bucket(rs[..n], ts[..n], s);
      BucketTotal(rs[..n], ts[..n], s);
      if rs[n].sentiment == s {
        var t := ts[n];
        var m2 := m[t := Get(m, t) + [rs[n].rawText]];
        TotalLenRemove(m2, t);
        assert m2 - {t} == m - {t};
        if t in m {
          TotalLenRemove(m, t);
        } else {
          assert m - {t} == m;
        }
      }
    }
  }

  /** Theme `t`'s list is exactly the texts of the reviews with sentiment
      `s` and theme `t`, in review order, and a theme is present only when
      that list is non-empty. */
  lemma {:induction false} BucketIsMatching(rs: seq<Review>, ts: seq<string>, s: string, t: string)
    requires |ts| == |rs|
    ensures Get(Bucket(rs, ts, s), t) == Matching(rs, ts, s, t)
    ensures t in Bucket(rs, ts, s) <==> Matching(rs, ts, s, t) != []
    decreases |rs|
  {
    if rs != [] {
      BucketIsMatching(rs[..|rs| - 1], ts[..|rs| - 1], s, t);
    }
  }

  /** Every text in a theme's list comes from a review with that sentiment
      and that theme. */
  lemma {:induction false} MatchingSource(rs: seq<Review>, ts: seq<string>, s: string, t: string, x: string)
    requires |ts| == |rs| && x in Matching(rs, ts, s, t)
    ensures exists i :: 0 <= i < |rs| && rs[i].rawText == x && rs[i].sentiment == s && ts[i] == t
    decreases |rs|
  {
    var n := |rs| - 1;
    if x in Matching(rs[..n], ts[..n], s, t) {
      MatchingSource(rs[..n], ts[..n], s, t, x);
      var i :| 0 <= i < n && rs[..n][i].rawText == x && rs[..n][i].sentiment == s && ts[..n][i] == t;
      assert rs[i] == rs[..n][i] && ts[i] == ts[..n][i];
    } else {
      assert rs[n].rawText == x && rs[n].sentiment == s && ts[n] == t;
    }
  }

  /** With the themes Analyze chose, every stored text is themed by the
      list it is stored under and comes from a review of that sentiment. */
  lemma {:induction false} StoredTextsThemed(keywords: map<string, seq<string>>, rs: seq<Review>, ts: seq<string>, s: string, t: string, x: string)
    requires |ts| == |rs|
    requires forall i :: 0 <= i < |rs| ==> IsThemeFor(keywords, rs[i].rawText, ts[i])
    requires t in Bucket(rs, ts, s) && x in Bucket(rs, ts, s)[t]
    ensures IsThemeFor(keywords, x, t)
    ensures exists i :: 0 <= i < |rs| && rs[i].rawText == x && rs[i].sentiment == s
  {
    BucketIsMatching(rs, ts, s, t);
    MatchingSource(rs, ts, s, t, x);
  }

  /** A review adds its own year to the tallies and no other. */
  lemma {:induction false} TallyKeys(m: map<string, Stat>, r: Review, key: string)
    ensures key in Tally(m, r) <==> key in m || (Dated(r) && YearKey(r.publishedAt) == key)
  {
  }

  lemma {:induction false} HasYearSnoc(rs: seq<Review>, key: string)
    requires rs != []
    ensures HasYear(rs, key) <==>
      HasYear(rs[..|rs| - 1], key) || (Dated(rs[|rs| - 1]) && YearKey(rs[|rs| - 1].publishedAt) == key)
  {
    var n := |rs| - 1;
    if HasYear(rs[..n], key) {
      var i :| 0 <= i < n && Dated(rs[..n][i]) && YearKey(rs[..n][i].publishedAt) == key;
      assert rs[i] == rs[..n][i];
    }
    if HasYear(rs, key) && !(Dated(rs[n]) && YearKey(rs[n].publishedAt) == key) {
      var i :| 0 <= i < |rs| && Dated(rs[i]) && YearKey(rs[i].publishedAt) == key;
      assert rs[..n][i] == rs[i];
    }
  }

  /** A year appears exactly when some dated review, of any sentiment,
      falls in it. */
  lemma {:induction false} DynKeys(rs: seq<Review>, key: string)
    ensures key in Dyn(rs) <==> HasYear(rs, key)
    decreases |rs|
  {
    if rs != [] {
      var n := |rs| - 1;
      DynKeys(rs[..n], key);
      TallyKeys(Dyn(rs[..n]), rs[n], key);
      HasYearSnoc(rs, key);
    }
  }

  /** A year's tallies count its positive and its negative reviews. */
  lemma {:induction false} DynCounts(rs: seq<Review>, key: string)
    requires key in Dyn(rs)
    ensures Dyn(rs)[key] == Stat(YearCount(rs, key, POSITIVE), YearCount(rs, key, NEGATIVE))
    decreases |rs|
  {
    var n := |rs| - 1;
    var r := rs[n];
    if key in Dyn(rs[..n]) {
      DynCounts(rs[..n], key);
    } else {
      assert Dated(r) && YearKey(r.publishedAt) == key;
      DynKeys(rs[..n], key);
      YearCountAbsent(rs[..n], key, POSITIVE);
      YearCountAbsent(rs[..n], key, NEGATIVE);
    }
  }

  lemma {:induction false} YearCountAbsent(rs: seq<Review>, key: string, s: string)
    requires !HasYear(rs, key)
    ensures YearCount(rs, key, s) == 0
    decreases |rs|
  {
    if rs != [] {
      var n := |rs| - 1;
      forall i | 0 <= i < n ensures !(Dated(rs[..n][i]) && YearKey(rs[..n][i].publishedAt) == key) {
        assert rs[..n][i] == rs[i];
      }
      YearCountAbsent(rs[..n], key, s);
      assert !(Dated(rs[n]) && YearKey(rs[n].publishedAt) == key);
    }
  }

  /** A satisfaction value is a percentage. */
  lemma PctBounds(st: Stat)
    ensures 0.0 <= Pct(st) <= 100.0
  {
    if st.pos + st.neg > 0 {
      var f := st.pos as real / (st.pos + st.neg) as real;
      assert f <= 1.0 by {
        assert st.pos as real <= (st.pos + st.neg) as real;
      }
    }
  }

  /** Every point of the series is a percentage. */
  lemma {:induction false} SeriesInRange(pts: seq<Point>, dyn: map<string, Stat>)
    requires SeriesFor(pts, dyn)
    ensures forall i :: 0 <= i < |pts| ==> 0.0 <= pts[i].value <= 100.0
  {
    forall i | 0 <= i < |pts| ensures 0.0 <= pts[i].value <= 100.0 {
      PctBounds(dyn[pts[i].year]);
    }
  }

  lemma {:induction false} WordSumWithoutReviews(rs: seq<Review>, s: string)
    requires Count(rs, s) == 0
    ensures WordSum(rs, s) == 0
    decreases |rs|
  {
    if rs != [] {
      WordSumWithoutReviews(rs[..|rs| - 1], s);
    }
  }

  /** The depth map always holds exactly the two classes. */
  lemma DepthKeys(rs: seq<Review>)
    ensures DepthOf(rs).Keys == {POS_KEY, NEG_KEY}
    ensures |DepthOf(rs)| == 2
  {
    assert POS_KEY[0] != NEG_KEY[0];
  }

  /** Average is the mean: times the count it gives back the sum, and a
      zero count leaves the sum alone. */
  lemma AverageMeaning(sum: nat, count: nat)
    ensures count == 0 ==> Average(sum, count) == sum as real
    ensures count > 0 ==> Average(sum, count) * count as real == sum as real
  {
  }

  /** Each class's value is the Average of its word sum over its count. */
  lemma {:induction false} DepthLookup(rs: seq<Review>)
    ensures DepthOf(rs)[POS_KEY] == Average(WordSum(rs, POSITIVE), Count(rs, POSITIVE))
    ensures DepthOf(rs)[NEG_KEY] == Average(WordSum(rs, NEGATIVE), Count(rs, NEGATIVE))
  {
    assert POS_KEY[0] != NEG_KEY[0];
  }

  /** A class without reviews keeps the value 0. */
  lemma DepthEmptyClass(rs: seq<Review>)
    ensures Count(rs, POSITIVE) == 0 ==> DepthOf(rs)[POS_KEY] == 0.0
    ensures Count(rs, NEGATIVE) == 0 ==> DepthOf(rs)[NEG_KEY] == 0.0
  {
    DepthLookup(rs);
    if Count(rs, POSITIVE) == 0 {
      WordSumWithoutReviews(rs, POSITIVE);
    }
    if Count(rs, NEGATIVE) == 0 {
      WordSumWithoutReviews(rs, NEGATIVE);
    }
  }

  // ---------------------------------------------------------------------
  // Analyze
  // ---------------------------------------------------------------------

  /** How each aggregate of sentiment `s` grows by review `i`. */
  lemma Snoc(rs: seq<Review>, ts: seq<string>, i: nat, t: string, s: string)
    requires i < |rs| && |ts| == i
    ensures Bucket(rs[..i + 1], ts + [t], s)
      == if rs[i].sentiment == s then Bucket(rs[..i], ts, s)[t := Get(Bucket(rs[..i], ts, s), t) + [rs[i].rawText]]
         else Bucket(rs[..i], ts, s)
    ensures Count(rs[..i + 1], s) == Count(rs[..i], s) + (if rs[i].sentiment == s then 1 else 0)
    ensures WordSum(rs[..i + 1], s) == WordSum(rs[..i], s) + (if rs[i].sentiment == s then WordCount(rs[i].rawText) else 0)
  {
    assert rs[..i + 1][..i] == rs[..i];
    assert (ts + [t])[..i] == ts;
  }

  lemma DynSnoc(rs: seq<Review>, i: nat)
    requires i < |rs|
    ensures Dyn(rs[..i + 1]) == Tally(Dyn(rs[..i]), rs[i])
  {
    assert rs[..i + 1][..i] == rs[..i];
  }

  /** The per-year part of the loop body: a dated review creates its year's
      entry if needed and bumps its positive or negative tally. */
  method TallyYear(dynamics: map<string, Stat>, r: Review) returns (d: map<string, Stat>)
    ensures d == Tally(dynamics, r)
  {
    d := dynamics;
    if |r.publishedAt| >= 10 {
      var key := YearKey(r.publishedAt);
      if key !in d {
        d := d[key := Stat(0, 0)];
      }
      if r.sentiment == POSITIVE {
        d := d[key := d[key].(pos := d[key].pos + 1)];
      } else if r.sentiment == NEGATIVE {
        d := d[key := d[key].(neg := d[key].neg + 1)];
      }
    }
  }

  /** The loop over the reviews: theme buckets, word sums, counters and
      per-year tallies.  `themes` records the theme GetTheme chose for each
      review. */
  method Aggregate(keywords: map<string, seq<string>>, reviews: seq<Review>)
    returns (posThemes: map<string, seq<string>>, negThemes: map<string, seq<string>>,
             depth: map<string, real>, posCount: nat, negCount: nat,
             dynamics: map<string, Stat>, ghost themes: seq<string>)
    ensures |themes| == |reviews|
    ensures forall i :: 0 <= i < |reviews| ==> IsThemeFor(keywords, reviews[i].rawText, themes[i])
    ensures posThemes == Bucket(reviews, themes, POSITIVE)
    ensures negThemes == Bucket(reviews, themes, NEGATIVE)
    ensures depth.Keys == {POS_KEY, NEG_KEY}
    ensures depth[POS_KEY] == WordSum(reviews, POSITIVE) as real
    ensures depth[NEG_KEY] == WordSum(reviews, NEGATIVE) as real
    ensures posCount == Count(reviews, POSITIVE) && negCount == Count(reviews, NEGATIVE)
    ensures dynamics == Dyn(reviews)
  {
    posThemes, negThemes := map[], map[];
    depth := map[POS_KEY := 0.0, NEG_KEY := 0.0];
    posCount, negCount := 0, 0;
    dynamics := map[];
    themes := [];
    assert POS_KEY != NEG_KEY by {
      assert POS_KEY[0] != NEG_KEY[0];
    }
    for i := 0 to |reviews|
      invariant |themes| == i
      invariant forall k :: 0 <= k < i ==> IsThemeFor(keywords, reviews[k].rawText, themes[k])
      invariant posThemes == Bucket(reviews[..i], themes, POSITIVE)
      invariant negThemes == Bucket(reviews[..i], themes, NEGATIVE)
      invariant depth.Keys == {POS_KEY, NEG_KEY}
      invariant depth[POS_KEY] == WordSum(reviews[..i], POSITIVE) as real
      invariant depth[NEG_KEY] == WordSum(reviews[..i], NEGATIVE) as real
      invariant posCount == Count(reviews[..i], POSITIVE)
      invariant negCount == Count(reviews[..i], NEGATIVE)
      invariant dynamics == Dyn(reviews[..i])
    {
      var r := reviews[i];
      var words := WordCount(r.rawText) as real;
      var theme := GetTheme(keywords, r.rawText);
      Snoc(reviews, themes, i, theme, POSITIVE);
      Snoc(reviews, themes, i, theme, NEGATIVE);
      DynSnoc(reviews, i);

      if r.sentiment == POSITIVE {
        depth := depth[POS_KEY := depth[POS_KEY] + words];
        posCount := posCount + 1;
        posThemes := posThemes[theme := Get(posThemes, theme) + [r.rawText]];
      } else if r.sentiment == NEGATIVE {
        depth := depth[NEG_KEY := depth[NEG_KEY] + words];
        negCount := negCount + 1;
        negThemes := negThemes[theme := Get(negThemes, theme) + [r.rawText]];
      }

      dynamics := TallyYear(dynamics, r);

      themes := themes + [theme];
    }
    assert reviews[..|reviews|] == reviews;
  }

  /** The year keys in map order, then sorted. */
  method YearKeys(dynamics: map<string, Stat>) returns (dynKeys: seq<string>)
    ensures StrictlySorted(dynKeys)
    ensures forall k :: k in dynKeys <==> k in dynamics
  {
    dynKeys := [];
    var rest := dynamics.Keys;
    while rest != {}
      invariant rest <= dynamics.Keys
      invariant Distinct(dynKeys)
      invariant forall k :: k in dynKeys <==> k in dynamics && k !in rest
      decreases |rest|
    {
      var k :| k in rest;
      dynKeys := dynKeys + [k];
      rest := rest - {k};
    }
    var unsorted := dynKeys;
    dynKeys := SortStrings(dynKeys);
    SortedDistinct(unsorted, dynKeys);
    forall k ensures k in dynKeys <==> k in unsorted {
      assert k in dynKeys <==> k in multiset(dynKeys);
      assert k in unsorted <==> k in multiset(unsorted);
    }
  }

  /** One point per year, in ascending year order. */
  method DynamicsSeries(dynamics: map<string, Stat>) returns (points: seq<Point>)
    ensures SeriesFor(points, dynamics)
  {
    var dynKeys := YearKeys(dynamics);
    points := [];
    for i := 0 to |dynKeys|
      invariant |points| == i
      invariant forall j :: 0 <= j < i ==> points[j] == Point(dynKeys[j], Pct(dynamics[dynKeys[j]]))
    {
      var st := dynamics[dynKeys[i]];
      var total := st.pos + st.neg;
      var val := 0.0;
      if total > 0 {
        val := st.pos as real / total as real * 100.0;
      }
      points := points + [Point(dynKeys[i], val)];
    }
    forall k | k in dynamics ensures exists i :: 0 <= i < |points| && points[i].year == k {
      var i :| 0 <= i < |dynKeys| && dynKeys[i] == k;
      assert points[i].year == k;
    }
  }

  /** The whole of Analyze: aggregation, averages, then the four results
      in fixed order. */
  method Analyze(keywords: map<string, seq<string>>, reviews: seq<Review>)
    returns (results: seq<Result>, ghost themes: seq<string>)
    ensures ReportShape(reviews, results)
    ensures |themes| == |reviews|
    ensures forall i :: 0 <= i < |reviews| ==> IsThemeFor(keywords, reviews[i].rawText, themes[i])
    ensures ReportFor(reviews, themes, results)
  {
    var posThemes, negThemes, depth, posCount, negCount, dynamics;
    posThemes, negThemes, depth, posCount, negCount, dynamics, themes := Aggregate(keywords, reviews);
    if posCount > 0 {
      depth := depth[POS_KEY := depth[POS_KEY] / posCount as real];
    }
    if negCount > 0 {
      depth := depth[NEG_KEY := depth[NEG_KEY] / negCount as real];
    }
    assert depth == DepthOf(reviews);
    var points := DynamicsSeries(dynamics);
    results := [
      Result(STRENGTHS, "bar", Themes(posThemes)),
      Result(PROBLEMS, "bar", Themes(negThemes)),
      Result(DEPTH, "bar", Depth(depth)),
      Result(DYNAMICS, "line", Series(points))
    ];
  }
}
