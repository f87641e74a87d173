/**
 * The school CSV loader (backend/cmd/loader.go): skip the header and short
 * rows, pull the coordinate text out of the geodata column, read longitude
 * then latitude from it, insert six text columns and the two numbers, and
 * count the inserts that succeed.
 *
 * A Go string is a sequence of UTF-8 octets; the coordinate scanner walks
 * those octets and appends each one as the rune of the same number, so the
 * coordinate text is a `string` of characters below U+0100.  Reading the
 * numbers (fmt.Sscanf) and executing the insert are parameters.
 */
module Loader {
  import Percent

  type byte = Percent.byte

  const MIN_FIELDS := 26
  const GEO_COLUMN := 25

  /** The values bound to the insert statement's placeholders, plus the
      row they came from. */
  datatype Insert = Insert(orgType: string, fullName: string, shortName: string, legalForm: string,
                           address: string, website: string, lat: real, lon: real, row: nat)

  // ---------------------------------------------------------------------
  // The coordinate scanner
  // ---------------------------------------------------------------------

  const OPEN: byte := 0x5B
  const CLOSE: byte := 0x5D

  /** Index of the first `b` in `s`, or |s| when there is none. */
  function FirstIndex(s: seq<byte>, b: byte): (i: nat)
    ensures i <= |s|
    ensures i < |s| ==> s[i] == b
    ensures forall k :: 0 <= k < i ==> s[k] != b
  {
    if s == [] then 0 else if s[0] == b then 0 else 1 + FirstIndex(s[1..], b)
  }

  /** Octets as runes of the same number, without the `[` octets. */
  function RunesWithoutOpen(s: seq<byte>): (r: string)
    ensures forall k :: 0 <= k < |r| ==> r[k] != '[' && r[k] as int < 0x100
    ensures |r| <= |s|
    ensures CLOSE !in s ==> ']' !in r
  {
    if s == [] then []
    else (if s[0] == OPEN then [] else [s[0] as int as char]) + RunesWithoutOpen(s[1..])
  }

  /** Reference definition: the octets after the first `[` and before the
      first `]`, with further `[` dropped; empty when no `[` comes before the
      first `]`. */
  function CoordText(geo: seq<byte>): (t: string)
    ensures |t| <= |geo|
    ensures '[' !in t && ']' !in t
  {
    var head := geo[..FirstIndex(geo, CLOSE)];
    var open := FirstIndex(head, OPEN);
    if open == |head| then [] else RunesWithoutOpen(head[open + 1..])
  }

  lemma {:induction false} RunesWithoutOpenSnoc(s: seq<byte>, b: byte)
    ensures RunesWithoutOpen(s + [b]) == RunesWithoutOpen(s) + (if b == OPEN then [] else [b as int as char])
    decreases |s|
  {
    if s == [] {
      assert [b][1..] == [];
    } else {
      assert (s + [b])[1..] == s[1..] + [b];
      RunesWithoutOpenSnoc(s[1..], b);
    }
  }

  /** What the scanner has collected after reading `geo[..j]`: the runes
      after the first `[`, or nothing before any `[`. */
  predicate Collected(geo: seq<byte>, j: nat, coordStr: string)
    requires j <= |geo|
  {
    && (FirstIndex(geo[..j], OPEN) < j ==> coordStr == RunesWithoutOpen(geo[FirstIndex(geo[..j], OPEN) + 1..j]))
    && (FirstIndex(geo[..j], OPEN) == j ==> coordStr == "")
  }

  /** The scanner's state after `geo[..j]`: collecting exactly when a `[`
      has been read. */
  predicate ScanState(geo: seq<byte>, j: nat, inCoords: bool, coordStr: string)
    requires j <= |geo|
  {
    (inCoords <==> FirstIndex(geo[..j], OPEN) < j) && Collected(geo, j, coordStr)
  }

  /** Reading a `[` switches collecting on and appends nothing. */
  lemma ScanOpen(geo: seq<byte>, j: nat, inCoords: bool, coordStr: string)
    requires j < |geo| && geo[j] == OPEN && ScanState(geo, j, inCoords, coordStr)
    ensures ScanState(geo, j + 1, true, coordStr)
  {
    var prefix := geo[..j];
    assert geo[..j + 1] == prefix + [geo[j]];
    FirstIndexSnoc(prefix, geo[j], OPEN);
    var f := FirstIndex(prefix, OPEN);
    if inCoords {
      var run := geo[f + 1..j];
      RunesWithoutOpenSnoc(run, OPEN);
      assert geo[f + 1..j + 1] == run + [OPEN];
      assert RunesWithoutOpen(geo[f + 1..j + 1]) == coordStr;
    } else {
      assert f == j && FirstIndex(geo[..j + 1], OPEN) == j;
      assert geo[j + 1..j + 1] == [];
    }
  }

  /** Reading any other octet appends its rune while collecting. */
  lemma ScanOther(geo: seq<byte>, j: nat, inCoords: bool, coordStr: string)
    requires j < |geo| && geo[j] != OPEN && ScanState(geo, j, inCoords, coordStr)
    ensures ScanState(geo, j + 1, inCoords, if inCoords then coordStr + [geo[j] as int as char] else coordStr)
  {
    var prefix := geo[..j];
    assert geo[..j + 1] == prefix + [geo[j]];
    FirstIndexSnoc(prefix, geo[j], OPEN);
    if inCoords {
      RunesWithoutOpenSnoc(geo[FirstIndex(prefix, OPEN) + 1..j], geo[j]);
      assert geo[FirstIndex(prefix, OPEN) + 1..j + 1] == geo[FirstIndex(prefix, OPEN) + 1..j] + [geo[j]];
    }
  }

  /** The character loop: `[` switches collecting on, `]` ends the scan,
      anything else is appended while collecting. */
  method ScanCoords(geo: seq<byte>) returns (coordStr: string)
    ensures coordStr == CoordText(geo)
  {
    var inCoords := false;
    coordStr := "";
    var j := 0;
    while j < |geo|
      invariant 0 <= j <= |geo|
      invariant forall k :: 0 <= k < j ==> geo[k] != CLOSE
      invariant ScanState(geo, j, inCoords, coordStr)
    {
      if geo[j] == OPEN {
        ScanOpen(geo, j, inCoords, coordStr);
        inCoords := true;
        j := j + 1;
        continue;
      }
      if geo[j] == CLOSE {
        inCoords := false;
        break;
      }
      ScanOther(geo, j, inCoords, coordStr);
      if inCoords {
        coordStr := coordStr + [geo[j] as int as char];
      }
      j := j + 1;
    }
    ScanResult(geo, j, coordStr);
  }

  /** FirstIndex is the only index with its three properties. */
  lemma {:induction false} FirstIndexIs(s: seq<byte>, b: byte, i: nat)
    requires i <= |s| && (i < |s| ==> s[i] == b)
    requires forall k :: 0 <= k < i ==> s[k] != b
    ensures FirstIndex(s, b) == i
  {
    if s != [] && s[0] != b {
      assert i > 0;
      FirstIndexIs(s[1..], b, i - 1);
    }
  }

  lemma FirstIndexSnoc(s: seq<byte>, x: byte, b: byte)
    ensures FirstIndex(s + [x], b) == if FirstIndex(s, b) < |s| then FirstIndex(s, b) else if x == b then |s| else |s| + 1
  {
    var t := FirstIndex(s, b);
    assert forall k :: 0 <= k < |s| ==> (s + [x])[k] == s[k];
    if t < |s| {
      FirstIndexIs(s + [x], b, t);
    } else if x == b {
      FirstIndexIs(s + [x], b, |s|);
    } else {
      FirstIndexIs(s + [x], b, |s| + 1);
    }
  }

  /** Where the loop stops — at the first `]` or at the end — the text
      collected is CoordText. */
  lemma ScanResult(geo: seq<byte>, j: nat, coordStr: string)
    requires j <= |geo| && (j == |geo| || geo[j] == CLOSE)
    requires forall k :: 0 <= k < j ==> geo[k] != CLOSE
    requires Collected(geo, j, coordStr)
    ensures coordStr == CoordText(geo)
  {
    FirstIndexIs(geo, CLOSE, j);
    var head := geo[..j];
    if FirstIndex(head, OPEN) < j {
      assert head[FirstIndex(head, OPEN) + 1..] == geo[FirstIndex(head, OPEN) + 1..j];
    }
  }

  /** Scanning stops at the first `]`: whatever follows it is never read. */
  lemma StopsAtClose(geo: seq<byte>, rest: seq<byte>)
    requires forall k :: 0 <= k < |geo| ==> geo[k] != CLOSE
    ensures CoordText(geo + [CLOSE] + rest) == CoordText(geo)
  {
    var g := geo + [CLOSE] + rest;
    assert forall k :: 0 <= k < |geo| ==> g[k] == geo[k];
    FirstIndexIs(g, CLOSE, |geo|);
    assert g[..|geo|] == geo;
    assert geo[..FirstIndex(geo, CLOSE)] == geo;
  }

  /** `]` before any `[` gives the empty text. */
  lemma {:induction false} CloseFirstGivesNothing(geo: seq<byte>)
    requires FirstIndex(geo, CLOSE) <= FirstIndex(geo, OPEN)
    ensures CoordText(geo) == ""
  {
    var head := geo[..FirstIndex(geo, CLOSE)];
    assert forall k :: 0 <= k < |head| ==> head[k] == geo[k];
  }

  // ---------------------------------------------------------------------
  // Rows
  // ---------------------------------------------------------------------

  /** What Sscanf("%f, %f", &lon, &lat) stores: the numbers read, in
      order, longitude first (GeoJSON position order, section 3.1.1 of
      RFC 7946); a variable not reached keeps 0. */
  function Coordinates(coordStr: string, scan: string -> seq<real>): (r: (real, real))
    ensures coordStr == "" ==> r == (0.0, 0.0)
    ensures coordStr != "" ==> var v := scan(coordStr);
      && r.1 == (if |v| >= 1 then v[0] else 0.0)
      && r.0 == (if |v| >= 2 then v[1] else 0.0)
  {
    if coordStr == "" then (0.0, 0.0)
    else
      var v := scan(coordStr);
      (if |v| >= 2 then v[1] else 0.0, if |v| >= 1 then v[0] else 0.0)
  }

  /** Reference definition of the row-to-insert projection. */
  function RowInsert(row: seq<string>, i: nat, scan: string -> seq<real>): (ins: Insert)
    requires |row| >= MIN_FIELDS
    ensures ins.orgType == row[0] && ins.fullName == row[3] && ins.shortName == row[4]
    ensures ins.legalForm == row[9] && ins.address == row[12] && ins.website == row[16]
    ensures ins.row == i
    ensures var t := CoordText(Percent.Utf8Encode(row[GEO_COLUMN])); var v := scan(t);
      && (t == "" ==> ins.lat == 0.0 && ins.lon == 0.0)
      && (t != "" && |v| >= 2 ==> ins.lon == v[0] && ins.lat == v[1])
  {
    var ll := Coordinates(CoordText(Percent.Utf8Encode(row[GEO_COLUMN])), scan);
    Insert(row[0], row[3], row[4], row[9], row[12], row[16], ll.0, ll.1, i)
  }

  predicate Loadable(rows: seq<seq<string>>, i: nat)
    requires i < |rows|
  {
    i != 0 && |rows[i]| >= MIN_FIELDS
  }

  /** The inserts attempted for the first n rows, in row order. */
  function Attempts(rows: seq<seq<string>>, n: nat, scan: string -> seq<real>): (r: seq<Insert>)
    requires n <= |rows|
    ensures forall k :: 0 <= k < |r| ==> 0 < r[k].row < n && Loadable(rows, r[k].row)
  {
    if n == 0 then []
    else
      Attempts(rows, n - 1, scan)
      + (if Loadable(rows, n - 1) then [RowInsert(rows[n - 1], n - 1, scan)] else [])
  }

  /** How many of the inserts succeed. */
  function Successes(ins: seq<Insert>, exec: Insert -> bool): (c: nat)
    ensures c <= |ins|
  {
    if ins == [] then 0
    else Successes(ins[..|ins| - 1], exec) + (if exec(ins[|ins| - 1]) then 1 else 0)
  }

  /** Each insert is the projection of a long enough row of its own. */
  predicate OwnRows(r: seq<Insert>, rows: seq<seq<string>>, scan: string -> seq<real>) {
    forall k :: 0 <= k < |r| ==>
      r[k].row < |rows| && |rows[r[k].row]| >= MIN_FIELDS && r[k] == RowInsert(rows[r[k].row], r[k].row, scan)
  }

  /** Inserts in strictly increasing row order. */
  predicate RowsIncreasing(r: seq<Insert>) {
    forall k, l :: 0 <= k < l < |r| ==> r[k].row < r[l].row
  }

  /** Each insert is the projection of its own row. */
  lemma {:induction false} AttemptsAreRows(rows: seq<seq<string>>, n: nat, scan: string -> seq<real>)
    requires n <= |rows|
    ensures OwnRows(Attempts(rows, n, scan), rows, scan)
  {
    var r := Attempts(rows, n, scan);
    if n > 0 {
      AttemptsAreRows(rows, n - 1, scan);
      var p := Attempts(rows, n - 1, scan);
      forall k | 0 <= k < |r|
        ensures r[k].row < |rows| && |rows[r[k].row]| >= MIN_FIELDS
        ensures r[k] == RowInsert(rows[r[k].row], r[k].row, scan)
      {
        if k < |p| {
          assert r[k] == p[k];
        }
      }
    }
  }

  /** The inserts come in increasing row order. */
  lemma {:induction false} AttemptsIncreasing(rows: seq<seq<string>>, n: nat, scan: string -> seq<real>)
    requires n <= |rows|
    ensures RowsIncreasing(Attempts(rows, n, scan))
  {
    var r := Attempts(rows, n, scan);
    if n > 0 {
      AttemptsIncreasing(rows, n - 1, scan);
      var p := Attempts(rows, n - 1, scan);
      forall k, l | 0 <= k < l < |r| ensures r[k].row < r[l].row {
        assert r[k] == p[k];
        if l < |p| {
          assert r[l] == p[l];
        }
      }
    }
  }

  /** At most one insert per data row; the header never yields one. */
  lemma {:induction false} AttemptsBound(rows: seq<seq<string>>, n: nat, scan: string -> seq<real>)
    requires n <= |rows|
    ensures |Attempts(rows, n, scan)| <= if n == 0 then 0 else n - 1
  {
    if n > 0 {
      AttemptsBound(rows, n - 1, scan);
    }
  }

  /** Every loadable row yields its insert. */
  lemma {:induction false} AttemptsComplete(rows: seq<seq<string>>, n: nat, scan: string -> seq<real>, i: nat)
    requires i < n <= |rows| && Loadable(rows, i)
    ensures exists k :: 0 <= k < |Attempts(rows, n, scan)| && Attempts(rows, n, scan)[k].row == i
  {
    var a := Attempts(rows, n, scan);
    if i < n - 1 {
      AttemptsComplete(rows, n - 1, scan, i);
      var k :| 0 <= k < |Attempts(rows, n - 1, scan)| && Attempts(rows, n - 1, scan)[k].row == i;
      assert a[k] == Attempts(rows, n - 1, scan)[k];
    } else {
      assert a[|a| - 1].row == i;
    }
  }

  lemma {:induction false} AttemptsStep(rows: seq<seq<string>>, i: nat, scan: string -> seq<real>)
    requires i < |rows|
    ensures Attempts(rows, i + 1, scan)
            == Attempts(rows, i, scan) + (if Loadable(rows, i) then [RowInsert(rows[i], i, scan)] else [])
  {
  }

  lemma {:induction false} SuccessesSnoc(ins: seq<Insert>, x: Insert, exec: Insert -> bool)
    ensures Successes(ins + [x], exec) == Successes(ins, exec) + (if exec(x) then 1 else 0)
  {
    assert (ins + [x])[..|ins|] == ins;
  }

  /** One data row: scan the geodata column, read the numbers, bind the
      placeholders. */
  method LoadRow(row: seq<string>, i: nat, scan: string -> seq<real>) returns (ins: Insert)
    requires |row| >= MIN_FIELDS
    ensures ins == RowInsert(row, i, scan)
  {
    var geo := Percent.Utf8Encode(row[GEO_COLUMN]);
    var coordStr := ScanCoords(geo);
    var lat, lon := 0.0, 0.0;
    if coordStr != "" {
      var v := scan(coordStr);
      if |v| >= 1 {
        lon := v[0];
      }
      if |v| >= 2 {
        lat := v[1];
      }
    }
    ins := Insert(row[0], row[3], row[4], row[9], row[12], row[16], lat, lon, i);
  }

  /** The row loop of main: `exec` stands for the database's answer to
      each insert.  Returns the inserts issued and the success counter. */
  method LoadSchools(rows: seq<seq<string>>, scan: string -> seq<real>, exec: Insert -> bool)
    returns (issued: seq<Insert>, count: nat)
    ensures issued == Attempts(rows, |rows|, scan)
    ensures count == Successes(issued, exec)
    ensures count <= if |rows| == 0 then 0 else |rows| - 1
  {
    issued := [];
    count := 0;
    for i := 0 to |rows|
      invariant issued == Attempts(rows, i, scan)
      invariant count == Successes(issued, exec)
    {
      var row := rows[i];
      AttemptsStep(rows, i, scan);
      if i == 0 || |row| < MIN_FIELDS {
        continue;
      }
      var ins := LoadRow(row, i, scan);
      SuccessesSnoc(issued, ins, exec);
      issued := issued + [ins];
      if exec(ins) {
        count := count + 1;
      }
    }
    AttemptsBound(rows, |rows|, scan);
  }
}
