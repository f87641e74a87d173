/**
 * Option type shared by every component of the model.
 */
module Wrappers {
  datatype Option<+T> = None | Some(value: T) {
    function GetOr(default: T): T {
      match this
      case Some(v) => v
      case None => default
    }
  }
}

/**
 * String primitives shared by the client (JavaScript), the analytics
 * engine and the loader (Go) and the scraper (Python).  Each language's
 * library operation is written out with the semantics that language gives it.
 */
module Text {
  import opened Wrappers

  // ---------------------------------------------------------------------
  // Substrings

  /** `p` occurs in `s` starting at index `i`. */
  predicate OccursAt(s: string, p: string, i: int) {
    0 <= i && i + |p| <= |s| && s[i..i + |p|] == p
  }

  /** Substring test: Go's strings.Contains and Python's `in` on str (the
      empty string is contained in every string). */
  predicate Contains(s: string, p: string) {
    exists i | 0 <= i <= |s| - |p| :: OccursAt(s, p, i)
  }

  /** Prefix test: Python's str.startswith. */
  predicate StartsWith(s: string, p: string) {
    |p| <= |s| && s[..|p|] == p
  }

  /** Index of the first occurrence of `p` in `s` at or after `from`. */
  function FindFrom(s: string, p: string, from: nat): (r: Option<nat>)
    requires from <= |s|
    ensures r.Some? ==> from <= r.value && OccursAt(s, p, r.value)
    ensures r.Some? ==> forall j :: from <= j < r.value ==> !OccursAt(s, p, j)
    ensures r.None? ==> forall j :: from <= j ==> !OccursAt(s, p, j)
    decreases |s| - from
  {
    if OccursAt(s, p, from) then Some(from)
    else if from + |p| >= |s| then
      assert forall j :: from < j ==> !OccursAt(s, p, j);
      None
    else FindFrom(s, p, from + 1)
  }

  lemma {:induction false} ContainsIffFound(s: string, p: string)
    ensures Contains(s, p) <==> FindFrom(s, p, 0).Some?
  {
    var r := FindFrom(s, p, 0);
    if r.Some? {
      assert OccursAt(s, p, r.value);
    }
  }

  lemma ContainsOccurrence(s: string, p: string, i: int)
    requires OccursAt(s, p, i)
    ensures Contains(s, p)
  {
  }

  /** An occurrence in a piece is an occurrence in the whole. */
  lemma OccursInSlice(s: string, lo: int, hi: int, p: string, i: int)
    requires 0 <= lo <= hi <= |s|
    requires OccursAt(s[lo..hi], p, i)
    ensures OccursAt(s, p, lo + i)
  {
    var t := s[lo..hi];
    forall j | lo + i <= j < lo + i + |p| ensures s[j] == t[j - lo] { }
    assert s[lo + i..lo + i + |p|] == t[i..i + |p|];
  }

  /** A substring of a piece is a substring of the whole. */
  lemma ContainsInSlice(s: string, lo: int, hi: int, p: string)
    requires 0 <= lo <= hi <= |s|
    requires Contains(s[lo..hi], p)
    ensures Contains(s, p)
  {
    var t := s[lo..hi];
    var i :| 0 <= i <= |t| - |p| && OccursAt(t, p, i);
    OccursInSlice(s, lo, hi, p, i);
  }

  lemma ContainsInAppend(a: string, b: string, p: string)
    requires Contains(a, p) || Contains(b, p)
    ensures Contains(a + b, p)
  {
    var s := a + b;
    if Contains(a, p) {
      assert s[0..|a|] == a;
      ContainsInSlice(s, 0, |a|, p);
    } else {
      assert s[|a|..|s|] == b;
      ContainsInSlice(s, |a|, |s|, p);
    }
  }

  // ---------------------------------------------------------------------
  // Ordering

  /** Lexicographic order on code points, which is the byte order Go's
      sort.Strings uses on UTF-8 text. */
  predicate Less(a: string, b: string)
    decreases |a|
  {
    if |a| == 0 then |b| > 0
    else if |b| == 0 then false
    else if a[0] != b[0] then a[0] < b[0]
    else Less(a[1..], b[1..])
  }

  lemma {:induction false} LessIrreflexive(a: string)
    ensures !Less(a, a)
    decreases |a|
  {
    if |a| > 0 { LessIrreflexive(a[1..]); }
  }

  lemma {:induction false} LessTransitive(a: string, b: string, c: string)
    requires Less(a, b) && Less(b, c)
    ensures Less(a, c)
    decreases |a|
  {
    if |a| > 0 && |b| > 0 && |c| > 0 && a[0] == b[0] && b[0] == c[0] {
      LessTransitive(a[1..], b[1..], c[1..]);
    }
  }

  lemma {:induction false} LessTotal(a: string, b: string)
    requires a != b
    ensures Less(a, b) || Less(b, a)
    decreases |a|
  {
    if |a| > 0 && |b| > 0 && a[0] == b[0] {
      assert a == [a[0]] + a[1..] && b == [b[0]] + b[1..];
      LessTotal(a[1..], b[1..]);
    }
  }

  lemma {:induction false} LessAsymmetric(a: string, b: string)
    requires Less(a, b)
    ensures !Less(b, a)
    decreases |a|
  {
    if |a| > 0 && |b| > 0 && a[0] == b[0] {
      LessAsymmetric(a[1..], b[1..]);
    }
  }

  // ---------------------------------------------------------------------
  // Decimal numerals

  predicate IsDigit(c: char) { '0' <= c <= '9' }

  function DigitChar(d: nat): (c: char)
    requires d < 10
    ensures IsDigit(c) && c as int - '0' as int == d
  {
    ('0' as int + d) as char
  }

  /** Value of a string of decimal digits. */
  function DigitsValue(s: string): nat
    requires forall i :: 0 <= i < |s| ==> IsDigit(s[i])
  {
    if s == [] then 0
    else
      var last := s[|s| - 1];
      assert IsDigit(last);
      DigitsValue(s[..|s| - 1]) * 10 + (last as int - '0' as int)
  }

  /** The canonical decimal numeral of `n`: Go's fmt "%d" and JavaScript's
      String() on a non-negative integer. */
  function NatText(n: nat): (r: string)
    ensures |r| > 0
    ensures forall i :: 0 <= i < |r| ==> IsDigit(r[i])
    ensures |r| > 1 ==> r[0] != '0'
    decreases n
  {
    if n < 10 then [DigitChar(n)] else NatText(n / 10) + [DigitChar(n % 10)]
  }

  /** The numeral reads back as the number it was written from. */
  lemma {:induction false} NatTextValue(n: nat)
    ensures DigitsValue(NatText(n)) == n
    decreases n
  {
    if n >= 10 {
      var r := NatText(n);
      assert r[..|r| - 1] == NatText(n / 10);
      NatTextValue(n / 10);
    }
  }

  lemma NatTextInjective(m: nat, n: nat)
    requires NatText(m) == NatText(n)
    ensures m == n
  {
    NatTextValue(m);
    NatTextValue(n);
  }

  // ---------------------------------------------------------------------
  // Whitespace trimming, parameterised by the language's notion of space

  /** Drop leading characters satisfying `ws`. */
  function TrimStart(s: string, ws: char -> bool): (r: string)
    ensures |r| <= |s| && r == s[|s| - |r|..]
    ensures forall i :: 0 <= i < |s| - |r| ==> ws(s[i])
    ensures |r| > 0 ==> !ws(r[0])
  {
    if |s| > 0 && ws(s[0]) then TrimStart(s[1..], ws) else s
  }

  /** Drop trailing characters satisfying `ws`. */
  function TrimEnd(s: string, ws: char -> bool): (r: string)
    ensures |r| <= |s| && r == s[..|r|]
    ensures forall i :: |r| <= i < |s| ==> ws(s[i])
    ensures |r| > 0 ==> !ws(r[|r| - 1])
  {
    if |s| > 0 && ws(s[|s| - 1]) then TrimEnd(s[..|s| - 1], ws) else s
  }

  /** Both ends trimmed: JavaScript's String.prototype.trim and Python's
      str.strip(), each with its own whitespace predicate. */
  function Trim(s: string, ws: char -> bool): (r: string)
    ensures |r| <= |s|
    ensures Unpadded(r, ws)
  {
    TrimEnd(TrimStart(s, ws), ws)
  }

  /** `r` neither starts nor ends with a space. */
  predicate Unpadded(r: string, ws: char -> bool) {
    |r| > 0 ==> !ws(r[0]) && !ws(r[|r| - 1])
  }

  /** `r` is the slice `s[i..j]`, everything outside it is a space, and it
      starts and ends with a non-space. */
  predicate TrimmedSlice(s: string, ws: char -> bool, r: string, i: int, j: int) {
    0 <= i <= j <= |s| && r == s[i..j]
    && (forall k :: 0 <= k < i ==> ws(s[k]))
    && (forall k :: j <= k < |s| ==> ws(s[k]))
    && Unpadded(r, ws)
  }

  /** The trimmed string is the slice of the input between a run of leading
      and a run of trailing spaces, and starts and ends with a non-space. */
  lemma TrimIsSlice(s: string, ws: char -> bool)
    ensures exists i, j :: TrimmedSlice(s, ws, Trim(s, ws), i, j)
  {
    var t := TrimStart(s, ws);
    var r := TrimEnd(t, ws);
    var i := |s| - |t|;
    TrimSliceBounds(s, ws, t, r, i, i + |r|);
    assert Trim(s, ws) == r;
  }

  /** The facts TrimStart and TrimEnd promise, put together. */
  lemma {:induction false} TrimSliceBounds(s: string, ws: char -> bool, t: string, r: string, i: nat, j: nat)
    requires i == |s| - |t| && j == i + |r| && |r| <= |t| <= |s|
    requires t == s[i..] && (forall k :: 0 <= k < i ==> ws(s[k])) && (|t| > 0 ==> !ws(t[0]))
    requires r == t[..|r|] && (forall k :: |r| <= k < |t| ==> ws(t[k]))
    requires |r| > 0 ==> !ws(r[|r| - 1])
    ensures TrimmedSlice(s, ws, r, i, j)
  {
    assert r == s[i..j];
    forall k | j <= k < |s| ensures ws(s[k]) {
      assert s[k] == t[k - i];
    }
    if |r| > 0 {
      assert r[0] == t[0];
    }
  }

  /** A leading space makes no difference to the trimmed text. */
  lemma TrimLeadingSpace(s: string, ws: char -> bool)
    requires ws(' ')
    ensures Trim(" " + s, ws) == Trim(s, ws)
  {
    assert (" " + s)[1..] == s;
  }

  /** Trimming a string without outer spaces changes nothing. */
  lemma {:induction false} TrimNoop(s: string, ws: char -> bool)
    requires |s| > 0 ==> !ws(s[0]) && !ws(s[|s| - 1])
    ensures Trim(s, ws) == s
  {
  }

  /** Trimming is idempotent. */
  lemma {:induction false} TrimIdempotent(s: string, ws: char -> bool)
    ensures Trim(Trim(s, ws), ws) == Trim(s, ws)
  {
    var r := Trim(s, ws);
    TrimIsSlice(s, ws);
    TrimNoop(r, ws);
  }

  /** Whitespace as JavaScript's String.prototype.trim sees it
      (WhiteSpace and LineTerminator of ECMA-262). */
  predicate JsSpace(c: char) {
    ('\t' <= c <= '\r') || c == ' ' || c == '\U{A0}' || c == '\U{1680}'
    || ('\U{2000}' <= c <= '\U{200A}') || c == '\U{2028}' || c == '\U{2029}'
    || c == '\U{202F}' || c == '\U{205F}' || c == '\U{3000}' || c == '\U{FEFF}'
  }

  /** Whitespace as Python's str.isspace / str.strip() and the regular
      expression class \s see it. */
  predicate PySpace(c: char) {
    ('\t' <= c <= '\r') || ('\U{1C}' <= c <= ' ') || c == '\U{85}' || c == '\U{A0}'
    || c == '\U{1680}' || ('\U{2000}' <= c <= '\U{200A}') || c == '\U{2028}' || c == '\U{2029}'
    || c == '\U{202F}' || c == '\U{205F}' || c == '\U{3000}'
  }

  /** Whitespace as Go's unicode.IsSpace sees it (used by strings.Fields). */
  predicate GoSpace(c: char) {
    ('\t' <= c <= '\r') || c == ' ' || c == '\U{85}' || c == '\U{A0}'
    || c == '\U{1680}' || ('\U{2000}' <= c <= '\U{200A}') || c == '\U{2028}' || c == '\U{2029}'
    || c == '\U{202F}' || c == '\U{205F}' || c == '\U{3000}'
  }

  // ---------------------------------------------------------------------
  // Splitting and joining (JavaScript String.prototype.split with a
  // one-character separator)

  /** Pieces of `s` between occurrences of `sep`; empty pieces are kept,
      so "a  b".split(' ') gives ["a", "", "b"]. */
  function Split(s: string, sep: char): (r: seq<string>)
    ensures |r| > 0
    ensures forall k, i :: 0 <= k < |r| && 0 <= i < |r[k]| ==> r[k][i] != sep
    decreases |s|
  {
    if s == [] then [""]
    else
      var rest := Split(s[1..], sep);
      if s[0] == sep then [""] + rest
      else [[s[0]] + rest[0]] + rest[1..]
  }

  function Join(parts: seq<string>, sep: char): string
    requires |parts| > 0
    decreases |parts|
  {
    if |parts| == 1 then parts[0] else parts[0] + [sep] + Join(parts[1..], sep)
  }

  /** Joining the pieces with the separator gives back the string. */
  lemma {:induction false} SplitJoin(s: string, sep: char)
    ensures Join(Split(s, sep), sep) == s
    decreases |s|
  {
    if s != [] {
      var rest := Split(s[1..], sep);
      SplitJoin(s[1..], sep);
      if s[0] == sep {
        assert Split(s, sep) == [""] + rest;
        assert ([""] + rest)[1..] == rest;
      } else {
        var r := Split(s, sep);
        assert r == [[s[0]] + rest[0]] + rest[1..];
        if |rest| == 1 {
          assert |r| == 1;
        } else {
          assert r[1..] == rest[1..];
          assert Join(rest, sep) == rest[0] + [sep] + Join(rest[1..], sep);
        }
      }
    }
  }

  // ---------------------------------------------------------------------
  // Replacement (Python's str.replace: left to right, non-overlapping)

  function Replace(s: string, p: string, q: string): (r: string)
    requires |p| > 0
    ensures |q| <= |p| ==> |r| <= |s|
    decreases |s|
  {
    if |s| < |p| then s
    else if s[..|p|] == p then q + Replace(s[|p|..], p, q)
    else [s[0]] + Replace(s[1..], p, q)
  }

  /** Deleting occurrences only shortens: the result is the input with some
      number of copies of the phrase taken out. */
  lemma {:induction false} ReplaceDeletes(s: string, p: string)
    requires |p| > 0
    ensures exists n: nat :: |Replace(s, p, "")| + n * |p| == |s|
    decreases |s|
  {
    if |s| >= |p| {
      if s[..|p|] == p {
        ReplaceDeletes(s[|p|..], p);
        var n: nat :| |Replace(s[|p|..], p, "")| + n * |p| == |s[|p|..]|;
        assert |Replace(s, p, "")| + (n + 1) * |p| == |s|;
      } else {
        ReplaceDeletes(s[1..], p);
        var n: nat :| |Replace(s[1..], p, "")| + n * |p| == |s[1..]|;
        assert |Replace(s, p, "")| + n * |p| == |s|;
      }
    } else {
      assert |Replace(s, p, "")| + 0 * |p| == |s|;
    }
  }

  /** Dropping the first character keeps a phrase absent. */
  lemma AbsentFromTail(s: string, p: string)
    requires |s| > 0 && !Contains(s, p)
    ensures !Contains(s[1..], p)
  {
    var t := s[1..];
    forall i | 0 <= i <= |t| - |p| ensures !OccursAt(t, p, i) {
      assert t[i..i + |p|] == s[i + 1..i + 1 + |p|];
      assert !OccursAt(s, p, i + 1);
    }
  }

  /** Replacement read as a search: the text before the first occurrence is
      kept, that occurrence becomes `q`, and the search goes on after it. */
  lemma ReplaceAtFirst(s: string, p: string, q: string, i: nat)
    requires |p| > 0 && OccursAt(s, p, i)
    requires forall j :: 0 <= j < i ==> !OccursAt(s, p, j)
    ensures Replace(s, p, q) == s[..i] + q + Replace(s[i + |p|..], p, q)
  {
    var u, w := s[..i], s[i..];
    assert s == u + w;
    ReplaceKeepsPrefix(u, w, p, q);
    assert w[..|p|] == p && w[|p|..] == s[i + |p|..];
    assert Replace(w, p, q) == q + Replace(s[i + |p|..], p, q);
  }

  /** A prefix where no occurrence starts is copied unchanged. */
  lemma {:induction false} ReplaceKeepsPrefix(u: string, w: string, p: string, q: string)
    requires |p| > 0
    requires forall j :: 0 <= j < |u| ==> !OccursAt(u + w, p, j)
    ensures Replace(u + w, p, q) == u + Replace(w, p, q)
    decreases |u|
  {
    if u == [] {
      assert u + w == w;
    } else if |u + w| < |p| {
      assert Replace(w, p, q) == w;
    } else {
      var s, v := u + w, u[1..];
      assert s[1..] == v + w;
      forall j | 0 <= j < |v| ensures !OccursAt(v + w, p, j) {
        if j + |p| <= |v + w| {
          assert (v + w)[j..j + |p|] == s[j + 1..j + 1 + |p|];
          assert !OccursAt(s, p, j + 1);
        }
      }
      ReplaceKeepsPrefix(v, w, p, q);
      assert s[0..|p|] == s[..|p|];
      assert !OccursAt(s, p, 0);
      assert Replace(s, p, q) == [u[0]] + Replace(v + w, p, q);
      assert u == [u[0]] + v;
    }
  }

  /** Python's str.replace in terms of the search: with no occurrence the
      text is unchanged, otherwise the first occurrence found is replaced
      and the rest after it is treated the same way. */
  lemma {:induction false} ReplaceFirst(s: string, p: string, q: string)
    requires |p| > 0
    ensures FindFrom(s, p, 0).None? ==> Replace(s, p, q) == s
    ensures FindFrom(s, p, 0).Some? ==> var i := FindFrom(s, p, 0).value;
      Replace(s, p, q) == s[..i] + q + Replace(s[i + |p|..], p, q)
  {
    ContainsIffFound(s, p);
    var f := FindFrom(s, p, 0);
    if f.None? {
      ReplaceAbsent(s, p, q);
    } else {
      ReplaceAtFirst(s, p, q, f.value);
    }
  }

  /** Deleting a phrase that occurs makes the text strictly shorter. */
  lemma {:induction false} ReplaceShortens(s: string, p: string)
    requires |p| > 0 && Contains(s, p)
    ensures |Replace(s, p, "")| < |s|
  {
    ContainsIffFound(s, p);
    ReplaceFirst(s, p, "");
  }

  /** A single occurrence, preceded by text that cannot start it, is the
      only thing replaced. */
  lemma ReplaceOnce(u: string, p: string, v: string, q: string)
    requires |p| > 0 && p[0] !in u && !Contains(v, p)
    ensures Replace(u + p + v, p, q) == u + q + v
  {
    var s := u + p + v;
    forall j | 0 <= j < |u| ensures !OccursAt(s, p, j) {
      assert s[j] == u[j] && u[j] in u;
      if j + |p| <= |s| {
        assert s[j..j + |p|][0] == s[j];
      }
    }
    assert s[|u|..|u| + |p|] == p;
    ReplaceAtFirst(s, p, q, |u|);
    assert s[|u| + |p|..] == v && s[..|u|] == u;
    ReplaceAbsent(v, p, q);
  }

  /** A phrase does not occur in `u + v` when it is absent from `v` and no
      character of `u` can start it. */
  lemma ContainsAfterForeign(u: string, v: string, p: string)
    requires |p| > 0 && !Contains(v, p)
    requires p[0] !in u
    ensures !Contains(u + v, p)
  {
    var s := u + v;
    forall i | 0 <= i <= |s| - |p| ensures !OccursAt(s, p, i) {
      if i < |u| {
        assert s[i..i + |p|][0] == u[i] && u[i] in u;
      } else {
        assert s[i..i + |p|] == v[i - |u|..i - |u| + |p|];
        assert !OccursAt(v, p, i - |u|);
      }
    }
  }

  /** A string that does not contain the phrase is left as it is. */
  lemma {:induction false} ReplaceAbsent(s: string, p: string, q: string)
    requires |p| > 0 && !Contains(s, p)
    ensures Replace(s, p, q) == s
    decreases |s|
  {
    if |s| >= |p| {
      assert !OccursAt(s, p, 0);
      assert s[..|p|] != p;
      AbsentFromTail(s, p);
      ReplaceAbsent(s[1..], p, q);
      assert s == [s[0]] + s[1..];
    }
  }
}
