/**
 * What the analysis view draws from the analytics the backend sends.
 * The handler in backend/handlers/schools.go writes `Analyze`'s results
 * under the key "analytics" with encoding/json, which writes a struct's
 * fields in declaration order, a Go map's keys in increasing byte order
 * (for UTF-8 text, code-point order: Text.Less), and a nil slice as
 * `null`.  The predicates below state that encoding as a relation between
 * an Engine value and the Json value the client parses; the lemmas follow
 * such a value through Normalizer.
 */
module Bridge {
  import opened Wrappers
  import opened Text
  import opened Json
  import Engine
  import Normalizer

  /** A `[]string` in JSON: the client counts one review per string and
      lists them as they are. */
  function Strs(ts: seq<string>): (r: seq<Js>)
    ensures Normalizer.GetCount(Arr(r)) == |ts| as real
    ensures Normalizer.GetExamples(Arr(r)) == r
    ensures |r| == |ts| && forall k :: 0 <= k < |ts| ==> r[k] == Str(ts[k])
  {
    seq(|ts|, k requires 0 <= k < |ts| => Str(ts[k]))
  }

  /** Object fields listed in strictly increasing key order. */
  predicate KeysAscending(fs: seq<(string, Js)>) {
    forall i, j :: 0 <= i < j < |fs| ==> Less(fs[i].0, fs[j].0)
  }

  /** A `map[string][]string` in JSON. */
  predicate ThemesWire(m: map<string, seq<string>>, v: Js) {
    && v.Obj?
    && KeysAscending(v.fields)
    && (forall i :: 0 <= i < |v.fields| ==> v.fields[i].0 in m && v.fields[i].1 == Arr(Strs(m[v.fields[i].0])))
    && (forall k :: k in m ==> exists i :: 0 <= i < |v.fields| && v.fields[i].0 == k)
  }

  /** A `map[string]float64` in JSON. */
  predicate DepthWire(m: map<string, real>, v: Js) {
    && v.Obj?
    && KeysAscending(v.fields)
    && (forall i :: 0 <= i < |v.fields| ==> v.fields[i].0 in m && v.fields[i].1 == Number(m[v.fields[i].0]))
    && (forall k :: k in m ==> exists i :: 0 <= i < |v.fields| && v.fields[i].0 == k)
  }

  /** One `pt{Label, Value}` in JSON. */
  function PointWire(p: Engine.Point): Js {
    Obj([("label", Str(p.year)), ("value", Number(p.value))])
  }

  /** A `[]pt` in JSON: a nil slice (no year at all) is `null`. */
  function SeriesWire(pts: seq<Engine.Point>): (v: Js)
    ensures v.Null? <==> pts == []
    ensures v.Arr? ==> |v.items| == |pts|
  {
    if pts == [] then Null
    else Arr(seq(|pts|, k requires 0 <= k < |pts| => PointWire(pts[k])))
  }

  predicate PayloadWire(p: Engine.Payload, v: Js) {
    match p
    case Themes(m) => ThemesWire(m, v)
    case Depth(m) => DepthWire(m, v)
    case Series(pts) => v == SeriesWire(pts)
  }

  /** One `Result` in JSON: name, type, payload. */
  predicate ResultWire(r: Engine.Result, v: Js) {
    && v.Obj? && |v.fields| == 3
    && v.fields[0] == ("name", Str(r.name))
    && v.fields[1] == ("type", Str(r.typ))
    && v.fields[2].0 == "payload"
    && PayloadWire(r.payload, v.fields[2].1)
  }

  /** The response body: its "analytics" key holds the results in order. */
  predicate ResponseWire(results: seq<Engine.Result>, data: Js) {
    && data.Obj?
    && Lookup(data.fields, "analytics").Arr?
    && |Lookup(data.fields, "analytics").items| == |results|
    && forall i :: 0 <= i < |results| ==> ResultWire(results[i], Lookup(data.fields, "analytics").items[i])
  }

  lemma AscendingDistinct(fs: seq<(string, Js)>)
    requires KeysAscending(fs)
    ensures DistinctKeys(fs)
  {
    forall i, j | 0 <= i < j < |fs| ensures fs[i].0 != fs[j].0 {
      if fs[i].0 == fs[j].0 {
        LessIrreflexive(fs[i].0);
      }
    }
  }

  /** Reading the three fields of an encoded result. */
  lemma ResultProps(r: Engine.Result, v: Js)
    requires ResultWire(r, v)
    ensures !Nullish(v)
    ensures Prop(v, "type") == Some(Str(r.typ))
    ensures Prop(v, "name") == Some(Str(r.name))
    ensures Prop(v, "payload") == Some(v.fields[2].1)
  {
    var fs := v.fields;
    var two := [fs[0], fs[1]];
    assert fs[..|fs| - 1] == two && two[..1] == [fs[0]] && [fs[0]][..0] == [];
    assert fs[2].0 != "type" && fs[2].0 != "name" && fs[1].0 != "name" by {
      assert fs[2].0[0] == 'p' && fs[1].0[0] == 't';
    }
    assert Lookup(fs, "type") == Lookup(two, "type") == Str(r.typ);
    assert Lookup(fs, "name") == Lookup(two, "name") == Lookup([fs[0]], "name") == Str(r.name);
  }

  /** An encoded result whose type is not the stacked one never makes the
      client throw: with a canvas it is drawn as a key → value bar chart. */
  lemma EntryNeverThrows(r: Engine.Result, v: Js, i: nat, slots: set<nat>)
    requires ResultWire(r, v) && r.typ != Normalizer.STACKED_TYPE
    ensures Normalizer.RenderEntry(v, i, slots) != Normalizer.Threw
    ensures i in slots ==> Normalizer.RenderEntry(v, i, slots) == Normalizer.Drawn(Normalizer.BarChart(v, i))
  {
    ResultProps(r, v);
  }

  /** An entry that is skipped or drawn as bars. */
  predicate SkippedOrBars(o: Normalizer.EntryOutcome) {
    o.Skipped? || (o.Drawn? && o.chart.Bars?)
  }

  /** Entry by entry, none of the encoded results throws, so the list
      renders as BarsDrawn says. */
  lemma ItemsDrawn(results: seq<Engine.Result>, items: seq<Js>, slots: set<nat>)
    requires |items| == |results|
    requires forall i :: 0 <= i < |results| ==> ResultWire(results[i], items[i])
    requires forall i :: 0 <= i < |results| ==> results[i].typ != Normalizer.STACKED_TYPE
    ensures !Normalizer.RenderFrom(items, 0, slots).threw
    ensures Normalizer.ChartSlots(Normalizer.RenderFrom(items, 0, slots).charts) == Normalizer.SlotsUsed(0, |items|, slots)
    ensures forall c :: c in Normalizer.RenderFrom(items, 0, slots).charts ==> c.Bars?
  {
    forall i | 0 <= i < |items|
      ensures SkippedOrBars(Normalizer.RenderEntry(items[i], i, slots))
    {
      EntryNeverThrows(results[i], items[i], i, slots);
    }
    BarsDrawn(items, slots);
  }

  /** A list whose every entry is skipped or drawn as bars renders without
      an error, one bar chart per entry with a canvas, in order. */
  lemma BarsDrawn(items: seq<Js>, slots: set<nat>)
    requires forall i :: 0 <= i < |items| ==> SkippedOrBars(Normalizer.RenderEntry(items[i], i, slots))
    ensures !Normalizer.RenderFrom(items, 0, slots).threw
    ensures Normalizer.ChartSlots(Normalizer.RenderFrom(items, 0, slots).charts) == Normalizer.SlotsUsed(0, |items|, slots)
    ensures forall c :: c in Normalizer.RenderFrom(items, 0, slots).charts ==> c.Bars?
  {
    Normalizer.RenderFromThrows(items, 0, slots);
    Normalizer.RenderFromComplete(items, 0, slots);
  }

  /** Encoded results of the types "bar" and "line" are drawn without an
      error: one bar chart per result whose canvas exists, in order. */
  lemma {:induction false} WireDrawn(results: seq<Engine.Result>, data: Js, slots: set<nat>)
    requires ResponseWire(results, data)
    requires forall i :: 0 <= i < |results| ==> results[i].typ == "bar" || results[i].typ == "line"
    ensures Normalizer.AnalyticsEntries(data) == Some(Lookup(data.fields, "analytics").items)
    ensures !Normalizer.RenderFrom(Lookup(data.fields, "analytics").items, 0, slots).threw
    ensures Normalizer.ChartSlots(Normalizer.RenderFrom(Lookup(data.fields, "analytics").items, 0, slots).charts)
            == Normalizer.SlotsUsed(0, |results|, slots)
    ensures forall c :: c in Normalizer.RenderFrom(Lookup(data.fields, "analytics").items, 0, slots).charts ==> c.Bars?
  {
    var items := Lookup(data.fields, "analytics").items;
    assert forall i :: 0 <= i < |results| ==> results[i].typ != Normalizer.STACKED_TYPE by {
      assert Normalizer.STACKED_TYPE[0] == 's';
    }
    ItemsDrawn(results, items, slots);
  }

  /** The analysis of any review list is drawn without an error: four
      results, each drawn as a bar chart when its canvas exists; the stacked
      branch is never taken. */
  lemma ReportDrawn(rs: seq<Engine.Review>, ts: seq<string>, results: seq<Engine.Result>, data: Js, slots: set<nat>)
    requires |ts| == |rs| && Engine.ReportFor(rs, ts, results)
    requires ResponseWire(results, data)
    ensures Normalizer.AnalyticsEntries(data) == Some(Lookup(data.fields, "analytics").items)
    ensures !Normalizer.RenderFrom(Lookup(data.fields, "analytics").items, 0, slots).threw
    ensures Normalizer.ChartSlots(Normalizer.RenderFrom(Lookup(data.fields, "analytics").items, 0, slots).charts)
            == Normalizer.SlotsUsed(0, 4, slots)
    ensures forall c :: c in Normalizer.RenderFrom(Lookup(data.fields, "analytics").items, 0, slots).charts ==> c.Bars?
  {
    Engine.ReportTypes(rs, ts, results);
    WireDrawn(results, data, slots);
  }

  /** A themes payload: one bar per theme, in ascending order of theme. */
  lemma {:induction false} ThemeBarsOrdered(r: Engine.Result, v: Js, i: nat)
    requires ResultWire(r, v) && r.payload.Themes?
    ensures var c := Normalizer.BarChart(v, i);
      && |c.values| == |c.rawLabels|
      && (forall a, b :: 0 <= a < b < |c.rawLabels| ==> Less(c.rawLabels[a], c.rawLabels[b]))
      && (forall t :: t in r.payload.themes <==> t in c.rawLabels)
  {
    ResultProps(r, v);
    var fs := v.fields[2].1.fields;
    Normalizer.ObjectChart(v, i, fs);
    var c := Normalizer.BarChart(v, i);
    forall t | t in r.payload.themes ensures t in c.rawLabels {
      var a :| 0 <= a < |fs| && fs[a].0 == t;
      assert c.rawLabels[a] == t;
    }
    forall t | t in c.rawLabels ensures t in r.payload.themes {
      var a :| 0 <= a < |c.rawLabels| && c.rawLabels[a] == t;
      assert fs[a].0 == t;
    }
    forall a, b | 0 <= a < b < |c.rawLabels| ensures Less(c.rawLabels[a], c.rawLabels[b]) {
      assert c.rawLabels[a] == fs[a].0 && c.rawLabels[b] == fs[b].0;
    }
  }

  /** Each theme's bar is as high as the number of texts under it. */
  lemma ThemeBarHeights(r: Engine.Result, v: Js, i: nat)
    requires ResultWire(r, v) && r.payload.Themes?
    ensures var c := Normalizer.BarChart(v, i);
      && |c.values| == |c.rawLabels|
      && (forall a :: 0 <= a < |c.rawLabels| ==>
            c.rawLabels[a] in r.payload.themes && c.values[a] == |r.payload.themes[c.rawLabels[a]]| as real)
  {
    ResultProps(r, v);
    var fs := v.fields[2].1.fields;
    var m := r.payload.themes;
    Normalizer.ObjectChart(v, i, fs);
    var c := Normalizer.BarChart(v, i);
    forall a | 0 <= a < |c.rawLabels| ensures c.rawLabels[a] in m && c.values[a] == |m[c.rawLabels[a]]| as real {
      assert c.rawLabels[a] == fs[a].0;
      assert c.values[a] == Normalizer.GetCount(fs[a].1);
      assert fs[a].1 == Arr(Strs(m[fs[a].0]));
    }
  }

  /** Clicking bar k of a themes chart opens the panel of the k-th theme
      listing its texts in order. */
  lemma {:induction false} ThemeDrillDown(r: Engine.Result, v: Js, i: nat, k: nat, rest: seq<nat>)
    requires ResultWire(r, v) && r.payload.Themes?
    requires k < |Normalizer.BarChart(v, i).rawLabels|
    ensures var c := Normalizer.BarChart(v, i);
      var t := c.rawLabels[k];
      && t in r.payload.themes
      && Normalizer.ClickBar(c.rawLabels, c.rawValues, [k] + rest)
         == Some(Normalizer.Panel(t, |r.payload.themes[t]| as real, Strs(r.payload.themes[t])))
  {
    ResultProps(r, v);
    Normalizer.ObjectChart(v, i, v.fields[2].1.fields);
  }

  /** The depth payload maps each class to a bare number, which getCount
      reads as 0: there is one bar per class, in ascending order of class
      ("Отрицательные" before "Положительные"), and every bar has height 0
      whatever the averages are. */
  lemma DepthBarsAreZero(r: Engine.Result, v: Js, i: nat)
    requires ResultWire(r, v) && r.payload.Depth?
    ensures var c := Normalizer.BarChart(v, i);
      && |c.values| == |c.rawLabels|
      && (forall a, b :: 0 <= a < b < |c.rawLabels| ==> Less(c.rawLabels[a], c.rawLabels[b]))
      && (forall t :: t in r.payload.depth <==> t in c.rawLabels)
      && (forall a :: 0 <= a < |c.values| ==> c.values[a] == 0.0)
  {
    ResultProps(r, v);
    var fs := v.fields[2].1.fields;
    Normalizer.ObjectChart(v, i, fs);
    var c := Normalizer.BarChart(v, i);
    forall t | t in r.payload.depth ensures t in c.rawLabels {
      var a :| 0 <= a < |fs| && fs[a].0 == t;
      assert c.rawLabels[a] == t;
    }
    forall t | t in c.rawLabels ensures t in r.payload.depth {
      var a :| 0 <= a < |c.rawLabels| && c.rawLabels[a] == t;
      assert fs[a].0 == t;
    }
    forall a, b | 0 <= a < b < |c.rawLabels| ensures Less(c.rawLabels[a], c.rawLabels[b]) {
      assert c.rawLabels[a] == fs[a].0 && c.rawLabels[b] == fs[b].0;
    }
    forall a | 0 <= a < |c.values| ensures c.values[a] == 0.0 {
      assert c.values[a] == Normalizer.GetCount(fs[a].1);
    }
  }

  /** The two classes, in the order the depth chart shows them. */
  lemma DepthClassOrder()
    ensures Less(Engine.NEG_KEY, Engine.POS_KEY)
  {
    assert Engine.NEG_KEY[0] == 'О' && Engine.POS_KEY[0] == 'П';
  }

  /** A point object has neither `count` nor `examples`. */
  lemma PointFields(p: Engine.Point)
    ensures Lookup(PointWire(p).fields, "count") == Undefined
    ensures Lookup(PointWire(p).fields, "examples") == Undefined
  {
    var fs := PointWire(p).fields;
    assert fs[..1] == [fs[0]] && [fs[0]][..0] == [];
    assert fs[0].0[0] == 'l' && fs[1].0[0] == 'v';
    assert Lookup(fs, "count") == Lookup([fs[0]], "count") == Lookup([], "count");
    assert Lookup(fs, "examples") == Lookup([fs[0]], "examples") == Lookup([], "examples");
  }

  /** The satisfaction series reaches a renderer for key → value maps:
      with no dated review the payload is `null` and nothing is drawn;
      otherwise the bars are labelled "0", "1", … by position and all have
      height 0, since a point object has no `count`; clicking one opens an
      empty panel titled with its index. */
  lemma SeriesAsIndexMap(r: Engine.Result, v: Js, i: nat, k: nat, rest: seq<nat>)
    requires ResultWire(r, v) && r.payload.Series?
    ensures var c := Normalizer.BarChart(v, i);
      var n := |r.payload.points|;
      && c.rawLabels == IndexKeys(n)
      && |c.values| == n
      && (forall a :: 0 <= a < n ==> c.values[a] == 0.0)
      && (k < n ==> Normalizer.ClickBar(c.rawLabels, c.rawValues, [k] + rest)
                    == Some(Normalizer.Panel(NatText(k), 0.0, [])))
  {
    ResultProps(r, v);
    var pts := r.payload.points;
    var c := Normalizer.BarChart(v, i);
    if pts != [] {
      var items := v.fields[2].1.items;
      assert c.rawValues == items && |c.values| == |items|;
      forall a | 0 <= a < |pts| ensures c.values[a] == 0.0 && Normalizer.GetExamples(c.rawValues[a]) == [] {
        assert items[a] == PointWire(pts[a]);
        assert c.values[a] == Normalizer.GetCount(items[a]);
        PointFields(pts[a]);
      }
    }
  }
}
