/**
 * The text rules of the review scraper (parsers/scraper_engine.py): the
 * search query built from a school's name, redirect-link decoding, the
 * choice of the page to open, and the filter / classify / de-duplicate
 * loop over the comment blocks of that page.  The browser only supplies
 * lists of strings, which are parameters here.
 */
module Scraper {
  import opened Wrappers
  import opened Text
  import Percent

  const SITE := "schoolotzyv.ru"
  const SCHOOLS := "schoolotzyv.ru/schools"
  /** "Государственное бюджетное общеобразовательное учреждение", spelt
      word by word. */
  const PHRASE_ORG := "Государственное" + " " + "бюджетное" + " " + "общеобразовательное" + " " + "учреждение"
  const PHRASE_CITY := "города Москвы"
  const QUERY_PREFIX := "site:schoolotzyv.ru "
  const ALL_REVIEWS := "Все отзывы"
  const DEFAULT_DATE := "2024-01-01"
  const POSITIVE_MARK := "Положительный"
  const NEGATIVE_MARK := "Отрицательный"
  const LIE_MARK := "Это ложь"
  const REPLY_MARK := "Ответить"
  const MIN_LENGTH := 50
  const KEY_LENGTH := 50

  // ---------------------------------------------------------------------
  // The search query
  // ---------------------------------------------------------------------

  /** The name with both fixed phrases deleted, then stripped. */
  function CleanName(name: string): (r: string)
    ensures |r| <= |name|
    ensures |r| > 0 ==> !PySpace(r[0]) && !PySpace(r[|r| - 1])
  {
    Trim(Replace(Replace(name, PHRASE_ORG, ""), PHRASE_CITY, ""), PySpace)
  }

  function SearchQuery(name: string): (q: string)
    ensures StartsWith(q, QUERY_PREFIX)
    ensures |q| <= |QUERY_PREFIX| + |name|
  {
    QUERY_PREFIX + CleanName(name)
  }

  /** The query is the site filter, then the cleaned name. */
  lemma {:induction false} QueryShape(name: string)
    ensures StartsWith(SearchQuery(name), QUERY_PREFIX)
    ensures SearchQuery(name)[|QUERY_PREFIX|..] == CleanName(name)
  {
  }

  /** A name that holds neither phrase and has no outer spaces is used as
      it is. */
  lemma CleanNameKeeps(name: string)
    requires !Contains(name, PHRASE_ORG) && !Contains(name, PHRASE_CITY)
    requires |name| > 0 ==> !PySpace(name[0]) && !PySpace(name[|name| - 1])
    ensures CleanName(name) == name
  {
    ReplaceAbsent(name, PHRASE_ORG, "");
    ReplaceAbsent(name, PHRASE_CITY, "");
    TrimNoop(name, PySpace);
  }

  /** A name holding either phrase gets strictly shorter: the phrase is
      really taken out. */
  lemma CleanNameShortens(name: string)
    requires Contains(name, PHRASE_ORG) || Contains(name, PHRASE_CITY)
    ensures |CleanName(name)| < |name|
  {
    var once := Replace(name, PHRASE_ORG, "");
    if Contains(name, PHRASE_ORG) {
      ReplaceShortens(name, PHRASE_ORG);
    } else {
      ReplaceAbsent(name, PHRASE_ORG, "");
      ReplaceShortens(name, PHRASE_CITY);
    }
  }

  /** The registry's full names start with both phrases: they are removed
      with the spaces after them, and what follows is kept, stripped. */
  lemma CleanNameStripsPrefix(rest: string)
    requires !Contains(rest, PHRASE_ORG) && !Contains(rest, PHRASE_CITY)
    ensures CleanName(PHRASE_ORG + " " + PHRASE_CITY + " " + rest) == Trim(rest, PySpace)
  {
    var mid := " " + PHRASE_CITY + " ";
    PhraseStarts();
    ContainsAfterForeign(mid, rest, PHRASE_ORG);
    ReplaceOnce("", PHRASE_ORG, mid + rest, "");
    assert PHRASE_ORG + " " + PHRASE_CITY + " " + rest == "" + PHRASE_ORG + (mid + rest);
    ContainsAfterForeign(" ", rest, PHRASE_CITY);
    ReplaceOnce(" ", PHRASE_CITY, " " + rest, "");
    assert "" + "" + (mid + rest) == " " + PHRASE_CITY + (" " + rest);
    TrimLeadingSpace(" " + rest, PySpace);
    TrimLeadingSpace(rest, PySpace);
  }

  /** The first letters of the two phrases, and where they do not occur. */
  lemma PhraseStarts()
    ensures PHRASE_ORG[0] == 'Г' && PHRASE_CITY[0] == 'г'
    ensures 'Г' !in " " + PHRASE_CITY + " " && 'г' !in " "
  {
  }

  /** Removal goes left to right over the input once, so a phrase split by
      the other copy is joined up again and stays in the cleaned name. */
  lemma CleanNameCanLeavePhrase()
    ensures CleanName("города М" + PHRASE_CITY + "осквы") == PHRASE_CITY
  {
    var name := "города М" + PHRASE_CITY + "осквы";
    PhraseStarts();
    assert 'Г' !in name;
    ContainsAfterForeign(name, "", PHRASE_ORG);
    assert name + "" == name;
    ReplaceAbsent(name, PHRASE_ORG, "");
    forall j | 0 <= j < 8 ensures !OccursAt(name, PHRASE_CITY, j) {
      if j == 0 {
        assert name[0..|PHRASE_CITY|][8] == name[8] != PHRASE_CITY[8];
      } else {
        assert name[j..j + |PHRASE_CITY|][0] == name[j] != PHRASE_CITY[0];
      }
    }
    assert name[8..8 + |PHRASE_CITY|] == PHRASE_CITY;
    ReplaceAtFirst(name, PHRASE_CITY, "", 8);
    assert name[8 + |PHRASE_CITY|..] == "осквы";
    assert name[..8] + "" + "осквы" == PHRASE_CITY;
    TrimNoop(PHRASE_CITY, PySpace);
  }

  /** Cleaning is stable: a cleaned name is its own cleaning once it no
      longer holds either phrase. */
  lemma CleanNameStable(name: string)
    requires !Contains(CleanName(name), PHRASE_ORG) && !Contains(CleanName(name), PHRASE_CITY)
    ensures CleanName(CleanName(name)) == CleanName(name)
  {
    CleanNameKeeps(CleanName(name));
  }

  // ---------------------------------------------------------------------
  // Redirect links: `[?&](?:url|u)=([^&]+)`
  // ---------------------------------------------------------------------

  /** Where the parameter value starts when the pattern matches at `p`:
      "url=" is tried before "u=", and the value needs one character. */
  function ValueStart(h: string, p: nat): (r: Option<nat>)
    ensures r.Some? ==> p < r.value < |h| && h[r.value] != '&'
  {
    if p >= |h| || (h[p] != '?' && h[p] != '&') then None
    else if OccursAt(h, "url=", p + 1) && p + 5 < |h| && h[p + 5] != '&' then Some(p + 5)
    else if OccursAt(h, "u=", p + 1) && p + 3 < |h| && h[p + 3] != '&' then Some(p + 3)
    else None
  }

  /** End of the run of characters other than "&" from `i` on. */
  function ValueEnd(h: string, i: nat): (e: nat)
    requires i <= |h|
    ensures i <= e <= |h|
    ensures forall k :: i <= k < e ==> h[k] != '&'
    ensures e < |h| ==> h[e] == '&'
    decreases |h| - i
  {
    if i == |h| || h[i] == '&' then i else ValueEnd(h, i + 1)
  }

  /** The leftmost match at or after `from`. */
  function FindMatch(h: string, from: nat): (r: Option<nat>)
    ensures r.Some? ==> from <= r.value && ValueStart(h, r.value).Some?
    ensures r.Some? ==> forall q :: from <= q < r.value ==> ValueStart(h, q).None?
    ensures r.None? ==> forall q :: from <= q ==> ValueStart(h, q).None?
    decreases |h| - from
  {
    if from >= |h| then None
    else if ValueStart(h, from).Some? then Some(from)
    else FindMatch(h, from + 1)
  }

  /** _extract_target_url: a missing or empty link gives nothing, a link
      to the site is kept, any other gives the decoded value of its first
      url/u parameter when that points to the site. */
  function ExtractTargetUrl(href: Option<string>): (r: Option<string>)
    ensures r.Some? ==> Contains(r.value, SITE)
    ensures href.None? || href == Some("") ==> r.None?
    ensures href.Some? && Contains(href.value, SITE) ==> r == href
  {
    if href.None? || href.value == "" then None
    else
      var h := href.value;
      if Contains(h, SITE) then href
      else
        match FindMatch(h, 0)
        case None => None
        case Some(p) =>
          var a := ValueStart(h, p).value;
          var decoded := Percent.Unquote(h[a..ValueEnd(h, a)]);
          if Contains(decoded, SITE) then Some(decoded) else None
  }

  /** The site name cannot start inside "?url=" followed by escapes, nor
      run into it from a prefix that does not hold it. */
  lemma NoSiteInRedirect(pre: string, e: string)
    requires !Contains(pre, SITE)
    requires forall k :: 0 <= k < |e| ==> Percent.EscapeChar(e[k])
    ensures !Contains(pre + "?url=" + e, SITE)
  {
    var h := pre + "?url=" + e;
    var n := |pre|;
    assert forall k :: 0 <= k < |SITE| ==> SITE[k] != '?';
    forall i | 0 <= i <= |h| - |SITE| ensures !OccursAt(h, SITE, i) {
      var w := h[i..i + |SITE|];
      if i + |SITE| <= n {
        assert w == pre[i..i + |SITE|];
        assert !OccursAt(pre, SITE, i);
      } else if i < n {
        assert w[n - i] == h[n] == '?';
      } else if i < n + 5 {
        assert w[0] == h[i] == "?url="[i - n];
      } else {
        assert w[0] == h[i] == e[i - n - 5];
        assert Percent.EscapeChar(e[i - n - 5]);
      }
    }
  }

  /** In such a link the first match is the "?url=" and the value runs to
      the end. */
  lemma {:induction false} RedirectValue(pre: string, e: string)
    requires forall k :: 0 <= k < |pre| ==> pre[k] != '?' && pre[k] != '&'
    requires e != [] && forall k :: 0 <= k < |e| ==> e[k] != '&'
    ensures var h := pre + "?url=" + e;
      FindMatch(h, 0) == Some(|pre|) && ValueStart(h, |pre|) == Some(|pre| + 5)
      && ValueEnd(h, |pre| + 5) == |h| && h[|pre| + 5..] == e
  {
    var h := pre + "?url=" + e;
    var n := |pre|;
    assert h[n + 1..n + 5] == "url=";
    assert OccursAt(h, "url=", n + 1);
    assert h[n + 5] == e[0];
    assert ValueStart(h, n) == Some(n + 5);
    forall q | 0 <= q < n ensures ValueStart(h, q).None? {
      assert h[q] == pre[q];
    }
    forall k | n + 5 <= k < |h| ensures h[k] != '&' {
      assert h[k] == e[k - n - 5];
    }
    assert h[n + 5..] == e;
  }

  /** A redirect whose `url` parameter is a run of escapes decoding to a
      site address yields that address. */
  lemma ExtractEscaped(pre: string, e: string, target: string)
    requires forall k :: 0 <= k < |pre| ==> pre[k] != '?' && pre[k] != '&'
    requires !Contains(pre, SITE) && Contains(target, SITE)
    requires e != [] && forall k :: 0 <= k < |e| ==> Percent.EscapeChar(e[k])
    requires Percent.Unquote(e) == target
    ensures ExtractTargetUrl(Some(pre + "?url=" + e)) == Some(target)
  {
    var h := pre + "?url=" + e;
    NoSiteInRedirect(pre, e);
    RedirectValue(pre, e);
    var a := |pre| + 5;
    assert h[a..ValueEnd(h, a)] == e;
  }

  /** A redirect whose `url` parameter percent-encodes a site address
      yields that address. */
  lemma ExtractRedirect(pre: string, target: string)
    requires forall k :: 0 <= k < |pre| ==> pre[k] != '?' && pre[k] != '&'
    requires !Contains(pre, SITE) && Contains(target, SITE)
    ensures ExtractTargetUrl(Some(pre + "?url=" + Percent.PercentEncode(target))) == Some(target)
  {
    var e := Percent.PercentEncode(target);
    assert |Percent.Utf8Encode(target)| > 0 by {
      assert target != [];
      assert |Percent.EncodeChar(target[0])| >= 1;
    }
    Percent.UnquoteEncoded(target);
    ExtractEscaped(pre, e, target);
  }

  /** The links loop: every truthy target, in page order. */
  function Targets(hrefs: seq<Option<string>>): (r: seq<string>)
    ensures forall i :: 0 <= i < |r| ==> Contains(r[i], SITE)
  {
    if hrefs == [] then []
    else
      var t := ExtractTargetUrl(hrefs[|hrefs| - 1]);
      Targets(hrefs[..|hrefs| - 1]) + (if t.Some? && t.value != "" then [t.value] else [])
  }

  method CollectLinks(hrefs: seq<Option<string>>) returns (links: seq<string>)
    ensures links == Targets(hrefs)
  {
    links := [];
    for i := 0 to |hrefs|
      invariant links == Targets(hrefs[..i])
    {
      var target := ExtractTargetUrl(hrefs[i]);
      if target.Some? && target.value != "" {
        links := links + [target.value];
      }
      assert hrefs[..i + 1][..i] == hrefs[..i];
    }
    assert hrefs[..|hrefs|] == hrefs;
  }

  // ---------------------------------------------------------------------
  // The page to open
  // ---------------------------------------------------------------------

  predicate IsSchoolPage(link: string) {
    link != "" && Contains(link, SCHOOLS)
  }

  predicate IsSitePage(link: string) {
    link != "" && Contains(link, SITE)
    && !Contains(link, "search") && !Contains(link, "static") && !Contains(link, "yabs")
  }

  /** `u` is the first link satisfying `p`. */
  predicate FirstOf(links: seq<string>, p: string -> bool, u: string) {
    exists i :: 0 <= i < |links| && links[i] == u && p(u) && forall j :: 0 <= j < i ==> !p(links[j])
  }

  function FirstWith(links: seq<string>, p: string -> bool): (r: Option<string>)
    ensures r.Some? ==> FirstOf(links, p, r.value)
    ensures r.None? <==> forall i :: 0 <= i < |links| ==> !p(links[i])
  {
    if links == [] then None
    else if p(links[0]) then
      assert links[0] == links[0];
      Some(links[0])
    else
      var r := FirstWith(links[1..], p);
      assert forall j :: 1 <= j < |links| ==> links[j] == links[1..][j - 1];
      r
  }

  /** The first school page; failing that, the first site page that is no
      search, static or ad link; failing that, nothing. */
  function ChooseUrl(links: seq<string>): (r: Option<string>)
    ensures r.Some? ==> (FirstOf(links, IsSchoolPage, r.value)
      || ((forall i :: 0 <= i < |links| ==> !IsSchoolPage(links[i])) && FirstOf(links, IsSitePage, r.value)))
    ensures r.None? <==> forall i :: 0 <= i < |links| ==> !IsSchoolPage(links[i]) && !IsSitePage(links[i])
  {
    match FirstWith(links, IsSchoolPage)
    case Some(u) => Some(u)
    case None => FirstWith(links, IsSitePage)
  }

  // ---------------------------------------------------------------------
  // Accepting a comment block
  // ---------------------------------------------------------------------

  /** `dddd-dd-dd` at `i`. */
  predicate DateAt(s: string, i: int) {
    && 0 <= i && i + 10 <= |s|
    && IsDigit(s[i]) && IsDigit(s[i + 1]) && IsDigit(s[i + 2]) && IsDigit(s[i + 3])
    && s[i + 4] == '-' && IsDigit(s[i + 5]) && IsDigit(s[i + 6])
    && s[i + 7] == '-' && IsDigit(s[i + 8]) && IsDigit(s[i + 9])
  }

  /** `20dd-dd-dd` at `i`. */
  predicate StampAt(s: string, i: int) {
    DateAt(s, i) && s[i] == '2' && s[i + 1] == '0'
  }

  /** `#` followed by a digit at `i`. */
  predicate TagAt(s: string, i: int) {
    0 <= i && i + 1 < |s| && s[i] == '#' && IsDigit(s[i + 1])
  }

  /** The block filter: long enough, not the "all reviews" link, and
      tagged with a `#` number or a date stamp. */
  predicate Accept(txt: string)
    ensures Accept(txt) ==> |txt| > MIN_LENGTH && !StartsWith(txt, ALL_REVIEWS)
  {
    && |txt| > MIN_LENGTH
    && !StartsWith(txt, ALL_REVIEWS)
    && ((exists i | 0 <= i < |txt| :: TagAt(txt, i)) || (exists i | 0 <= i < |txt| :: StampAt(txt, i)))
  }

  function FirstDate(s: string, from: nat): (r: Option<nat>)
    ensures r.Some? ==> from <= r.value && DateAt(s, r.value)
    ensures r.Some? ==> forall j :: from <= j < r.value ==> !DateAt(s, j)
    ensures r.None? ==> forall j :: from <= j ==> !DateAt(s, j)
    decreases |s| - from
  {
    if from + 10 > |s| then None
    else if DateAt(s, from) then Some(from)
    else FirstDate(s, from + 1)
  }

  /** The leftmost date of the block, or the fixed fallback. */
  function ReviewDate(txt: string): (d: string)
    ensures DateAt(d, 0) && |d| == 10
    ensures (forall i :: !DateAt(txt, i)) ==> d == DEFAULT_DATE
    ensures (exists i :: DateAt(txt, i)) ==>
      (exists i :: DateAt(txt, i) && d == txt[i..i + 10] && forall j :: 0 <= j < i ==> !DateAt(txt, j))
  {
    match FirstDate(txt, 0)
    case Some(i) =>
      assert forall k :: i <= k < i + 10 ==> txt[i..i + 10][k - i] == txt[k];
      txt[i..i + 10]
    case None => DEFAULT_DATE
  }

  /** A block with a `20dd-dd-dd` stamp takes the leftmost date, which
      lies at or before the stamp. */
  lemma {:induction false} StampedDate(txt: string, i: int)
    requires StampAt(txt, i)
    ensures exists j :: 0 <= j <= i && DateAt(txt, j) && ReviewDate(txt) == txt[j..j + 10]
  {
  }

  /** "positive" wins over "negative"; with neither marker the review is
      neutral. */
  function Rating(txt: string): (r: string)
    ensures r == "positive" <==> Contains(txt, POSITIVE_MARK)
    ensures r == "negative" <==> !Contains(txt, POSITIVE_MARK) && Contains(txt, NEGATIVE_MARK)
    ensures r == "neutral" <==> !Contains(txt, POSITIVE_MARK) && !Contains(txt, NEGATIVE_MARK)
  {
    if Contains(txt, POSITIVE_MARK) then "positive"
    else if Contains(txt, NEGATIVE_MARK) then "negative"
    else "neutral"
  }

  // ---------------------------------------------------------------------
  // The review body: `Это ложь\s+\d+\s*\n(.*?)(?:Ответить|$)`
  // ---------------------------------------------------------------------

  function SpaceRun(s: string, i: nat): (n: nat)
    requires i <= |s|
    ensures i + n <= |s|
    ensures forall k :: i <= k < i + n ==> PySpace(s[k])
    ensures i + n < |s| ==> !PySpace(s[i + n])
    decreases |s| - i
  {
    if i == |s| || !PySpace(s[i]) then 0 else 1 + SpaceRun(s, i + 1)
  }

  function DigitRun(s: string, i: nat): (n: nat)
    requires i <= |s|
    ensures i + n <= |s|
    ensures forall k :: i <= k < i + n ==> IsDigit(s[k])
    ensures i + n < |s| ==> !IsDigit(s[i + n])
    decreases |s| - i
  {
    if i == |s| || !IsDigit(s[i]) then 0 else 1 + DigitRun(s, i + 1)
  }

  /** The last line feed in s[lo..hi]. */
  function LastNewline(s: string, lo: nat, hi: nat): (r: Option<nat>)
    requires lo <= hi <= |s|
    ensures r.Some? ==> lo <= r.value < hi && s[r.value] == '\n'
    ensures r.Some? ==> forall k :: r.value < k < hi ==> s[k] != '\n'
    ensures r.None? ==> forall k :: lo <= k < hi ==> s[k] != '\n'
    decreases hi - lo
  {
    if lo == hi then None
    else if s[hi - 1] == '\n' then Some(hi - 1)
    else LastNewline(s, lo, hi - 1)
  }

  /** Where the group starts when the marker at `i` begins a match: after
      white space, digits and white space, the lazy group begins after the
      last line feed of that last white-space run. */
  function BodyStart(s: string, i: nat): (r: Option<nat>)
    requires OccursAt(s, LIE_MARK, i)
    ensures r.Some? ==> i + |LIE_MARK| < r.value <= |s| && s[r.value - 1] == '\n'
  {
    var a := i + |LIE_MARK|;
    assert a <= |s|;
    var w := SpaceRun(s, a);
    if w == 0 then None
    else
      var b := a + w;
      var d := DigitRun(s, b);
      if d == 0 then None
      else
        var c := b + d;
        var e := SpaceRun(s, c);
        match LastNewline(s, c, c + e)
        case None => None
        case Some(k) =>
          assert a < k + 1 <= |s| && s[k] == '\n';
          Some(k + 1)
  }

  /** `$` without MULTILINE: the end, or just before a final line feed. */
  predicate AtEnd(s: string, e: nat) {
    e == |s| || (e == |s| - 1 && s[e] == '\n')
  }

  /** The lazy group ends at the first reply marker or end. */
  function BodyEnd(s: string, g: nat): (e: nat)
    requires g <= |s|
    ensures g <= e <= |s|
    ensures OccursAt(s, REPLY_MARK, e) || AtEnd(s, e)
    ensures forall k :: g <= k < e ==> !OccursAt(s, REPLY_MARK, k)
    decreases |s| - g
  {
    if OccursAt(s, REPLY_MARK, g) || AtEnd(s, g) then g else BodyEnd(s, g + 1)
  }

  /** The leftmost match at or after `from`, as the group's bounds. */
  function FindBody(s: string, from: nat): (r: Option<(nat, nat)>)
    ensures r.Some? ==> r.value.0 <= r.value.1 <= |s|
    ensures r.Some? ==> forall k :: r.value.0 <= k < r.value.1 ==> !OccursAt(s, REPLY_MARK, k)
    decreases |s| - from
  {
    if from >= |s| then None
    else if OccursAt(s, LIE_MARK, from) && BodyStart(s, from).Some? then
      var g := BodyStart(s, from).value;
      Some((g, BodyEnd(s, g)))
    else FindBody(s, from + 1)
  }

  /** The body after the marker line when there is one, else the block. */
  function ReviewText(txt: string): (r: string)
    ensures |r| <= |txt|
    ensures FindBody(txt, 0).None? ==> r == txt
  {
    match FindBody(txt, 0)
    case Some(r) => Trim(txt[r.0..r.1], PySpace)
    case None => txt
  }

  /** An extracted body never holds the reply marker. */
  lemma BodyWithoutReply(txt: string)
    requires FindBody(txt, 0).Some?
    ensures !Contains(ReviewText(txt), REPLY_MARK)
  {
    var r := FindBody(txt, 0).value;
    var body := txt[r.0..r.1];
    assert !Contains(body, REPLY_MARK) by {
      forall i | 0 <= i <= |body| - |REPLY_MARK| ensures !OccursAt(body, REPLY_MARK, i) {
        if OccursAt(body, REPLY_MARK, i) {
          OccursInSlice(txt, r.0, r.1, REPLY_MARK, i);
        }
      }
    }
    TrimIsSlice(body, PySpace);
    var i, j :| 0 <= i <= j <= |body| && ReviewText(txt) == body[i..j];
    if Contains(body[i..j], REPLY_MARK) {
      ContainsInSlice(body, i, j, REPLY_MARK);
    }
  }

  // ---------------------------------------------------------------------
  // The filter / classify / de-duplicate loop
  // ---------------------------------------------------------------------

  datatype ScrapedReview = ScrapedReview(date: string, rating: string, text: string)

  /** The de-duplication key: the date and the first 50 characters. */
  function Key(r: ScrapedReview): (k: (string, string))
    ensures k.0 == r.date && |k.1| <= KEY_LENGTH && k.1 <= r.text
    ensures |r.text| <= KEY_LENGTH ==> k.1 == r.text
  {
    (r.date, if |r.text| <= KEY_LENGTH then r.text else r.text[..KEY_LENGTH])
  }

  /** What one comment block contributes, before de-duplication. */
  function Candidate(raw: string): Option<ScrapedReview> {
    var txt := Trim(raw, PySpace);
    if Accept(txt) then Some(ScrapedReview(ReviewDate(txt), Rating(txt), ReviewText(txt))) else None
  }

  function Candidates(raws: seq<string>): seq<ScrapedReview> {
    if raws == [] then []
    else
      var c := Candidate(raws[|raws| - 1]);
      Candidates(raws[..|raws| - 1]) + (if c.Some? then [c.value] else [])
  }

  function KeysOf(rs: seq<ScrapedReview>): set<(string, string)> {
    if rs == [] then {} else KeysOf(rs[..|rs| - 1]) + {Key(rs[|rs| - 1])}
  }

  /** Keep the first review of each key, in order. */
  function Keep(cs: seq<ScrapedReview>): (r: seq<ScrapedReview>)
    ensures |r| <= |cs|
    ensures |cs| > 0 ==> |r| > 0
  {
    if cs == [] then []
    else
      var k := Keep(cs[..|cs| - 1]);
      if Key(cs[|cs| - 1]) in KeysOf(k) then k else k + [cs[|cs| - 1]]
  }

  /** One more block: candidates and the kept list grow as the loop does. */
  lemma {:induction false} Snoc(raws: seq<string>, raw: string, r: ScrapedReview)
    ensures Candidates(raws + [raw])
      == Candidates(raws) + (if Candidate(raw).Some? then [Candidate(raw).value] else [])
    ensures Keep(Candidates(raws) + [r])
      == if Key(r) in KeysOf(Keep(Candidates(raws))) then Keep(Candidates(raws)) else Keep(Candidates(raws)) + [r]
    ensures KeysOf(Keep(Candidates(raws)) + [r]) == KeysOf(Keep(Candidates(raws))) + {Key(r)}
  {
    assert (raws + [raw])[..|raws|] == raws;
    var cs := Candidates(raws);
    assert (cs + [r])[..|cs|] == cs;
    var k := Keep(cs);
    assert (k + [r])[..|k|] == k;
  }

  /** The body of the loop up to the de-duplication: strip the block,
      test it, and read its date, rating and text. */
  method Classify(raw: string) returns (accepted: bool, r: ScrapedReview)
    ensures accepted <==> Candidate(raw).Some?
    ensures accepted ==> r == Candidate(raw).value
  {
    var txt := Trim(raw, PySpace);
    accepted := Accept(txt);
    r := ScrapedReview("", "", "");
    if accepted {
      var date := ReviewDate(txt);
      var rating := Rating(txt);
      var text := ReviewText(txt);
      r := ScrapedReview(date, rating, text);
    }
  }

  method ScrapeReviews(raws: seq<string>) returns (reviews: seq<ScrapedReview>)
    ensures reviews == Keep(Candidates(raws))
  {
    var seen: set<(string, string)> := {};
    reviews := [];
    for i := 0 to |raws|
      invariant reviews == Keep(Candidates(raws[..i]))
      invariant seen == KeysOf(reviews)
    {
      assert raws[..i + 1] == raws[..i] + [raws[i]];
      ghost var cs := Candidates(raws[..i]);
      var accepted, r := Classify(raws[i]);
      Snoc(raws[..i], raws[i], r);
      if accepted {
        assert Candidates(raws[..i + 1]) == cs + [r];
        var key := (r.date, if |r.text| <= KEY_LENGTH then r.text else r.text[..KEY_LENGTH]);
        assert key == Key(r);
        if key !in seen {
          assert Keep(cs + [r]) == reviews + [r];
          seen := seen + {key};
          reviews := reviews + [r];
        } else {
          assert Keep(cs + [r]) == reviews;
        }
      } else {
        assert Candidates(raws[..i + 1]) == cs;
      }
    }
    assert raws[..|raws|] == raws;
  }

  /** Some review of `rs` has key `k`. */
  predicate HasKey(rs: seq<ScrapedReview>, k: (string, string)) {
    exists i :: 0 <= i < |rs| && Key(rs[i]) == k
  }

  lemma {:induction false} HasKeySnoc(rs: seq<ScrapedReview>, k: (string, string))
    requires rs != []
    ensures HasKey(rs, k) <==> HasKey(rs[..|rs| - 1], k) || Key(rs[|rs| - 1]) == k
  {
    var n := |rs| - 1;
    if HasKey(rs[..n], k) {
      var i :| 0 <= i < n && Key(rs[..n][i]) == k;
      assert rs[i] == rs[..n][i];
    }
    if HasKey(rs, k) && Key(rs[n]) != k {
      var i :| 0 <= i < |rs| && Key(rs[i]) == k;
      assert rs[..n][i] == rs[i];
    }
  }

  lemma {:induction false} KeysOfMember(rs: seq<ScrapedReview>, k: (string, string))
    ensures k in KeysOf(rs) <==> HasKey(rs, k)
    decreases |rs|
  {
    if rs != [] {
      KeysOfMember(rs[..|rs| - 1], k);
      HasKeySnoc(rs, k);
    }
  }

  predicate KeysDistinct(rs: seq<ScrapedReview>) {
    forall i, j :: 0 <= i < j < |rs| ==> Key(rs[i]) != Key(rs[j])
  }

  /** No two kept reviews share a key. */
  lemma {:induction false} KeepDistinct(cs: seq<ScrapedReview>)
    ensures KeysDistinct(Keep(cs))
    decreases |cs|
  {
    if cs != [] {
      var n := |cs| - 1;
      var k := Keep(cs[..n]);
      KeepDistinct(cs[..n]);
      if Key(cs[n]) !in KeysOf(k) {
        var out := k + [cs[n]];
        KeysOfMember(k, Key(cs[n]));
        forall i, j | 0 <= i < j < |out| ensures Key(out[i]) != Key(out[j]) {
          assert out[i] == k[i];
          if j < |k| {
            assert out[j] == k[j];
            assert Key(k[i]) != Key(k[j]);
          } else {
            assert out[j] == cs[n];
            assert Key(k[i]) != Key(cs[n]);
          }
        }
        assert Keep(cs) == out;
      }
    }
  }

  /** Every key of the input is kept. */
  lemma {:induction false} KeepKeys(cs: seq<ScrapedReview>)
    ensures KeysOf(Keep(cs)) == KeysOf(cs)
    decreases |cs|
  {
    if cs != [] {
      var n := |cs| - 1;
      KeepKeys(cs[..n]);
      var k := Keep(cs[..n]);
      if Key(cs[n]) !in KeysOf(k) {
        assert (k + [cs[n]])[..|k|] == k;
      }
    }
  }

  /** `r` is the first review of its key in `cs`. */
  predicate FirstOfKey(cs: seq<ScrapedReview>, r: ScrapedReview) {
    exists i :: 0 <= i < |cs| && cs[i] == r && forall q :: 0 <= q < i ==> Key(cs[q]) != Key(r)
  }

  /** Each kept review is the first review of its key in the input. */
  lemma {:induction false} KeepFirst(cs: seq<ScrapedReview>)
    ensures forall j :: 0 <= j < |Keep(cs)| ==> FirstOfKey(cs, Keep(cs)[j])
    decreases |cs|
  {
    if cs != [] {
      var n := |cs| - 1;
      var init := cs[..n];
      var k := Keep(init);
      KeepFirst(init);
      var out := Keep(cs);
      forall j | 0 <= j < |out| ensures FirstOfKey(cs, out[j]) {
        if j < |k| {
          assert out[j] == k[j];
          assert FirstOfKey(init, k[j]);
          var i :| 0 <= i < |init| && init[i] == k[j] && forall q :: 0 <= q < i ==> Key(init[q]) != Key(k[j]);
          assert cs[i] == init[i];
          assert forall q :: 0 <= q < i ==> cs[q] == init[q];
        } else {
          assert out[j] == cs[n] && Key(cs[n]) !in KeysOf(k);
          KeepKeys(init);
          KeysOfMember(init, Key(cs[n]));
          forall q | 0 <= q < n ensures Key(cs[q]) != Key(cs[n]) {
            assert init[q] == cs[q];
          }
        }
      }
    }
  }

  /** `a` is `b` with some elements left out. */
  predicate Subsequence(a: seq<ScrapedReview>, b: seq<ScrapedReview>)
    decreases |b|
  {
    a == [] || (b != [] &&
      ((a[|a| - 1] == b[|b| - 1] && Subsequence(a[..|a| - 1], b[..|b| - 1])) || Subsequence(a, b[..|b| - 1])))
  }

  /** The kept reviews keep their input order. */
  lemma {:induction false} KeepOrder(cs: seq<ScrapedReview>)
    ensures Subsequence(Keep(cs), cs)
    decreases |cs|
  {
    if cs != [] {
      var n := |cs| - 1;
      var k := Keep(cs[..n]);
      KeepOrder(cs[..n]);
      if Key(cs[n]) !in KeysOf(k) {
        var out := k + [cs[n]];
        assert out[..|out| - 1] == k;
      }
    }
  }
}
