/**
 * The pure part of the analysis view in frontend/app.js: reading counts and
 * example lists out of duck-typed payload values, turning one analytics
 * entry into a chart description, and resolving a click on a bar back to
 * the reviews behind it.
 */
module Normalizer {
  import opened Wrappers
  import opened Text
  import opened Json

  /** Chart.js `indexAxis`: 'y' draws horizontal bars. */
  datatype Axis = X | Y

  /** A category label: plain, or word-wrapped into lines. */
  datatype Label = Plain(text: string) | Lines(parts: seq<string>)

  /** The chart built for one analytics entry in canvas `chart-<slot>`.
      A bar chart keeps the raw keys and raw values its click handler
      closes over. */
  datatype Chart =
    | Stacked(slot: nat, stackLabels: seq<Js>, pos: seq<Js>, neg: seq<Js>, axis: Axis)
    | Bars(slot: nat, labels: seq<Label>, values: seq<real>, axis: Axis,
           rawLabels: seq<string>, rawValues: seq<Js>)

  /** What drawing one entry does: nothing (no canvas), a chart, or a
      TypeError that aborts the rest of the analysis handler. */
  datatype EntryOutcome = Skipped | Drawn(chart: Chart) | Threw

  /** The side panel opened from a bar: its title is
      `theme + " (" + count + " отзывов)"` and it lists `items` in order. */
  datatype Panel = Panel(theme: string, count: real, items: seq<Js>)

  const STACKED_TYPE := "stackedBar"
  const SEASON_NAME := "Сезонность активности"

  // ---------------------------------------------------------------------
  // getCount / getExamples

  /** `getCount`: an array counts its elements, an object its numeric
      `count` field; anything else, a bare number included, counts 0. */
  function GetCount(v: Js): (r: real)
    ensures v.Arr? ==> r == |GetExamples(v)| as real
    ensures !v.Arr? && !v.Obj? ==> r == 0.0
  {
    match v
    case Arr(items) => |items| as real
    case Obj(fs) => if Lookup(fs, "count").Number? then Lookup(fs, "count").n else 0.0
    case _ => 0.0
  }

  /** `getExamples`: an array is its own example list, an object offers its
      array `examples` field; anything else has none. */
  function GetExamples(v: Js): (r: seq<Js>)
    ensures v.Arr? ==> r == v.items
    ensures !v.Arr? && !v.Obj? ==> r == []
  {
    match v
    case Arr(items) => items
    case Obj(fs) => if Lookup(fs, "examples").Arr? then Lookup(fs, "examples").items else []
    case _ => []
  }

  lemma GetCountCases(v: Js)
    ensures v.Arr? ==> GetCount(v) == |v.items| as real
    ensures v.Obj? && Lookup(v.fields, "count").Number? ==> GetCount(v) == Lookup(v.fields, "count").n
    ensures v.Obj? && !Lookup(v.fields, "count").Number? ==> GetCount(v) == 0.0
    ensures !v.Arr? && !v.Obj? ==> GetCount(v) == 0.0
  {
  }

  lemma GetExamplesCases(v: Js)
    ensures v.Arr? ==> GetExamples(v) == v.items
    ensures v.Obj? && Lookup(v.fields, "examples").Arr? ==> GetExamples(v) == Lookup(v.fields, "examples").items
    ensures v.Obj? && !Lookup(v.fields, "examples").Arr? ==> GetExamples(v) == []
    ensures !v.Arr? && !v.Obj? ==> GetExamples(v) == []
  {
  }

  /** A value of an unrecognised shape degrades to count 0 and no examples. */
  lemma UnknownShapeIsEmpty(v: Js)
    requires !v.Arr? && (v.Obj? ==> !Lookup(v.fields, "count").Number? && !Lookup(v.fields, "examples").Arr?)
    ensures GetCount(v) == 0.0 && GetExamples(v) == []
  {
  }

  /** Count and examples agree for a list of reviews and for a consistent
      {count, examples} record. */
  lemma {:induction false} CountMatchesExamples(v: Js)
    requires v.Arr? || (v.Obj? && Lookup(v.fields, "examples").Arr?
                        && Lookup(v.fields, "count") == Number(|Lookup(v.fields, "examples").items| as real))
    ensures GetCount(v) == |GetExamples(v)| as real
  {
  }

  // ---------------------------------------------------------------------
  // Labels

  /** Keys longer than 12 characters are wrapped at every space. */
  function WrapLabel(l: string): (r: Label)
    ensures LabelText(r) == l
    ensures r.Lines? <==> |l| > 12
  {
    if |l| > 12 then SplitJoin(l, ' '); Lines(Split(l, ' ')) else Plain(l)
  }

  function LabelText(l: Label): string {
    match l
    case Plain(t) => t
    case Lines(parts) => if |parts| == 0 then "" else Join(parts, ' ')
  }

  /** Wrapping only changes how a label is drawn: the lines joined by spaces
      give back the key, and only long keys are wrapped. */
  lemma WrapLabelRoundTrip(l: string)
    ensures LabelText(WrapLabel(l)) == l
    ensures WrapLabel(l).Lines? <==> |l| > 12
    ensures WrapLabel(l).Lines? ==> forall k, i :: 0 <= k < |WrapLabel(l).parts| && 0 <= i < |WrapLabel(l).parts[k]| ==> WrapLabel(l).parts[k][i] != ' '
  {
    if |l| > 12 {
      SplitJoin(l, ' ');
    }
  }

  // ---------------------------------------------------------------------
  // One analytics entry

  /** `item.payload.map(p => p[k])`; None when some element is null or
      undefined (TypeError). */
  function MapProp(ps: seq<Js>, k: string): (r: Option<seq<Js>>)
    ensures r.Some? <==> forall i :: 0 <= i < |ps| ==> !Nullish(ps[i])
    ensures r.Some? ==> |r.value| == |ps| && forall i :: 0 <= i < |ps| ==> Prop(ps[i], k) == Some(r.value[i])
  {
    if ps == [] then Some([])
    else
      match (Prop(ps[0], k), MapProp(ps[1..], k))
      case (Some(h), Some(t)) => Some([h] + t)
      case _ => None
  }

  /** Horizontal bars for the first two entries, vertical ones after. */
  function BarAxis(i: nat): Axis {
    if i == 0 || i == 1 then Y else X
  }

  /** The chart for a stacked entry (payload must be an array of records). */
  function StackedChart(item: Js, i: nat): (r: Option<Chart>)
    requires !Nullish(item)
    ensures r.Some? ==> r.value.Stacked? && r.value.slot == i
    ensures r.Some? ==>
      (Prop(item, "payload").value.Arr?
       && |r.value.stackLabels| == |r.value.pos| == |r.value.neg| == |Prop(item, "payload").value.items|)
  {
    var isSeason := Prop(item, "name").value == Str(SEASON_NAME);
    var payload := Prop(item, "payload").value;
    if !payload.Arr? then None
    else
      match (MapProp(payload.items, if isSeason then "label" else "category"),
             MapProp(payload.items, "pos"), MapProp(payload.items, "neg"))
      case (Some(labels), Some(pos), Some(neg)) =>
        Some(Stacked(i, labels, pos, neg, if isSeason then X else Y))
      case _ => None
  }

  /** The chart for any other entry: the payload (or `{}` when it is falsy)
      read as a key → value map. */
  function BarChart(item: Js, i: nat): (c: Chart)
    requires !Nullish(item)
    ensures c.Bars? && c.slot == i && (c.axis == Y <==> i <= 1)
    ensures |c.labels| == |c.values| == |c.rawLabels| == |c.rawValues|
  {
    var payload := Prop(item, "payload").value;
    var obj := if Truthy(payload) then payload else Obj([]);
    var rawLabels := Keys(obj);
    var rawValues := Values(obj);
    Bars(i,
         seq(|rawLabels|, k requires 0 <= k < |rawLabels| => WrapLabel(rawLabels[k])),
         seq(|rawValues|, k requires 0 <= k < |rawValues| => GetCount(rawValues[k])),
         BarAxis(i), rawLabels, rawValues)
  }

  /** The body of the analytics `forEach` for entry `i`. */
  function RenderEntry(item: Js, i: nat, slots: set<nat>): (o: EntryOutcome)
    ensures o.Drawn? ==> o.chart.slot == i
    ensures o != Skipped ==> i in slots
  {
    if i !in slots then Skipped
    else if Nullish(item) then Threw
    else if Prop(item, "type").value == Str(STACKED_TYPE) then
      match StackedChart(item, i)
      case Some(c) => Drawn(c)
      case None => Threw
    else Drawn(BarChart(item, i))
  }

  /** Bar charts: one label and one bar per key, in key order, each bar the
      count of the matching value, drawn horizontally exactly for entries 0
      and 1; the entry's type is anything but "stackedBar". */
  lemma {:induction false} BarsShape(item: Js, i: nat, slots: set<nat>)
    requires RenderEntry(item, i, slots).Drawn? && RenderEntry(item, i, slots).chart.Bars?
    ensures var c := RenderEntry(item, i, slots).chart;
      && c.slot == i
      && Prop(item, "type") != Some(Str(STACKED_TYPE))
      && |c.labels| == |c.values| == |c.rawLabels| == |c.rawValues|
      && (forall k :: 0 <= k < |c.values| ==> c.values[k] == GetCount(c.rawValues[k]))
      && (forall k :: 0 <= k < |c.labels| ==> c.labels[k] == WrapLabel(c.rawLabels[k]))
      && (c.axis == Y <==> i == 0 || i == 1)
  {
  }

  /** The bar chart of an entry whose payload is an object: one bar per
      field, in field order. */
  lemma {:induction false} ObjectChart(v: Js, i: nat, fs: seq<(string, Js)>)
    requires !Nullish(v) && Prop(v, "payload") == Some(Obj(fs))
    ensures |BarChart(v, i).rawLabels| == |BarChart(v, i).values| == |fs|
    ensures |BarChart(v, i).rawValues| == |fs|
    ensures forall a :: 0 <= a < |fs| ==>
      && BarChart(v, i).rawLabels[a] == fs[a].0
      && BarChart(v, i).rawValues[a] == fs[a].1
      && BarChart(v, i).values[a] == GetCount(fs[a].1)
  {
  }

  /** For an object payload with distinct keys, bar k is key k and its
      value. */
  lemma BarsOfObject(item: Js, i: nat, slots: set<nat>, fs: seq<(string, Js)>)
    requires i in slots && !Nullish(item)
    requires Prop(item, "type") != Some(Str(STACKED_TYPE))
    requires Prop(item, "payload") == Some(Obj(fs)) && DistinctKeys(fs)
    ensures RenderEntry(item, i, slots).Drawn?
    ensures var c := RenderEntry(item, i, slots).chart;
      c.Bars? && |c.rawLabels| == |fs|
      && forall k :: 0 <= k < |fs| ==>
           c.rawLabels[k] == fs[k].0 && c.rawValues[k] == Lookup(fs, fs[k].0)
           && c.values[k] == GetCount(Lookup(fs, fs[k].0))
  {
    assert RenderEntry(item, i, slots) == Drawn(BarChart(item, i));
    ObjectChart(item, i, fs);
    forall k | 0 <= k < |fs| ensures Lookup(fs, fs[k].0) == fs[k].1 {
      LookupAt(fs, k);
    }
  }

  /** Stacked charts: labels from `label` for the seasonal entry and from
      `category` otherwise, one pos and one neg value per payload element,
      vertical bars exactly for the seasonal entry. */
  lemma {:induction false} StackedShape(item: Js, i: nat, slots: set<nat>)
    requires i in slots && !Nullish(item)
    requires Prop(item, "type") == Some(Str(STACKED_TYPE))
    requires Prop(item, "payload").value.Arr?
    requires forall k :: 0 <= k < |Prop(item, "payload").value.items| ==> !Nullish(Prop(item, "payload").value.items[k])
    ensures RenderEntry(item, i, slots).Drawn?
    ensures var c := RenderEntry(item, i, slots).chart;
      var ps := Prop(item, "payload").value.items;
      var isSeason := Prop(item, "name") == Some(Str(SEASON_NAME));
      && c.Stacked? && c.slot == i
      && |c.stackLabels| == |c.pos| == |c.neg| == |ps|
      && (forall k :: 0 <= k < |ps| ==>
            Prop(ps[k], if isSeason then "label" else "category") == Some(c.stackLabels[k])
            && Prop(ps[k], "pos") == Some(c.pos[k]) && Prop(ps[k], "neg") == Some(c.neg[k]))
      && (c.axis == X <==> isSeason)
  {
  }

  /** A stacked entry whose payload is not an array, or holds a null
      record, throws. */
  lemma {:induction false} StackedMalformedThrows(item: Js, i: nat, slots: set<nat>)
    requires i in slots && !Nullish(item)
    requires Prop(item, "type") == Some(Str(STACKED_TYPE))
    requires !Prop(item, "payload").value.Arr?
             || exists k :: 0 <= k < |Prop(item, "payload").value.items| && Nullish(Prop(item, "payload").value.items[k])
    ensures RenderEntry(item, i, slots) == Threw
  {
  }

  /** An entry is drawn in its own slot, skipped exactly when its canvas is
      missing, and never throws unless it is null or a stacked entry. */
  lemma {:induction false} RenderEntryOutcome(item: Js, i: nat, slots: set<nat>)
    ensures RenderEntry(item, i, slots) == Skipped <==> i !in slots
    ensures RenderEntry(item, i, slots).Drawn? ==> RenderEntry(item, i, slots).chart.slot == i
    ensures RenderEntry(item, i, slots) == Threw ==>
      Nullish(item) || Prop(item, "type") == Some(Str(STACKED_TYPE))
  {
  }

  // ---------------------------------------------------------------------
  // Click on a bar

  /** The bar chart's `onClick`: nothing for an empty hit list, else the
      panel for the first hit's index (`undefined` past the end). */
  function ClickBar(rawLabels: seq<string>, rawValues: seq<Js>, elements: seq<nat>): (r: Option<Panel>)
    ensures r.Some? <==> |elements| > 0
    ensures r.Some? && elements[0] < |rawLabels| ==> r.value.theme == rawLabels[elements[0]]
    ensures r.Some? && elements[0] < |rawValues| ==>
      r.value.count == GetCount(rawValues[elements[0]]) && r.value.items == GetExamples(rawValues[elements[0]])
  {
    if |elements| == 0 then None
    else
      var idx := elements[0];
      var theme := if idx < |rawLabels| then rawLabels[idx] else "undefined";
      var source := if idx < |rawValues| then rawValues[idx] else Undefined;
      Some(Panel(theme, GetCount(source), GetExamples(source)))
  }

  /** Drill-down round trip: clicking bar k of an object payload whose value
      under key L is a list of reviews opens the panel titled with L and the
      list's length, showing exactly that list in order. */
  lemma {:induction false} DrillDown(item: Js, i: nat, slots: set<nat>, fs: seq<(string, Js)>, k: nat, rest: seq<nat>)
    requires i in slots && !Nullish(item)
    requires Prop(item, "type") != Some(Str(STACKED_TYPE))
    requires Prop(item, "payload") == Some(Obj(fs)) && DistinctKeys(fs)
    requires k < |fs| && fs[k].1.Arr?
    ensures var c := RenderEntry(item, i, slots).chart;
      c.Bars?
      && ClickBar(c.rawLabels, c.rawValues, [k] + rest)
         == Some(Panel(fs[k].0, |fs[k].1.items| as real, fs[k].1.items))
  {
    BarsOfObject(item, i, slots, fs);
    LookupAt(fs, k);
  }

  /** The panel resolved from index idx is the key and value at idx. */
  lemma {:induction false} ClickBarResolves(rawLabels: seq<string>, rawValues: seq<Js>, elements: seq<nat>)
    requires |elements| > 0 && elements[0] < |rawLabels| == |rawValues|
    ensures ClickBar(rawLabels, rawValues, elements)
      == Some(Panel(rawLabels[elements[0]], GetCount(rawValues[elements[0]]), GetExamples(rawValues[elements[0]])))
  {
  }

  // ---------------------------------------------------------------------
  // All entries

  /** `data.analytics || []`; None when it is truthy but not an array
      (`forEach` is not a function). */
  function AnalyticsEntries(data: Js): (r: Option<seq<Js>>)
    requires !Nullish(data)
    ensures var a := Prop(data, "analytics").value;
      && (r.None? <==> Truthy(a) && !a.Arr?)
      && (a.Arr? ==> r == Some(a.items))
      && (!Truthy(a) ==> r == Some([]))
  {
    var a := Prop(data, "analytics").value;
    if !Truthy(a) then Some([])
    else if a.Arr? then Some(a.items)
    else None
  }

  /** Result of the `forEach` from entry `from` on: the charts pushed, and
      whether an entry threw (which stops the loop). */
  datatype Rendering = Rendering(charts: seq<Chart>, threw: bool)

  function RenderFrom(entries: seq<Js>, from: nat, slots: set<nat>): (r: Rendering)
    requires from <= |entries|
    ensures |r.charts| <= |entries| - from
    ensures forall c :: c in r.charts ==> from <= c.slot < |entries| && c.slot in slots
    decreases |entries| - from
  {
    if from == |entries| then Rendering([], false)
    else
      match RenderEntry(entries[from], from, slots)
      case Skipped => RenderFrom(entries, from + 1, slots)
      case Threw => Rendering([], true)
      case Drawn(c) =>
        var rest := RenderFrom(entries, from + 1, slots);
        Rendering([c] + rest.charts, rest.threw)
  }

  /** Indices in [from, n) that have a canvas, in increasing order. */
  function SlotsUsed(from: nat, n: nat, slots: set<nat>): seq<nat>
    requires from <= n
    decreases n - from
  {
    if from == n then [] else (if from in slots then [from] else []) + SlotsUsed(from + 1, n, slots)
  }

  function ChartSlots(cs: seq<Chart>): (r: seq<nat>)
    ensures |r| == |cs|
  {
    if cs == [] then [] else [cs[0].slot] + ChartSlots(cs[1..])
  }

  /** When no entry throws, exactly one chart is drawn per entry whose
      canvas exists, in entry order, each being that entry's chart. */
  lemma {:induction false} RenderFromComplete(entries: seq<Js>, from: nat, slots: set<nat>)
    requires from <= |entries|
    requires !RenderFrom(entries, from, slots).threw
    ensures ChartSlots(RenderFrom(entries, from, slots).charts) == SlotsUsed(from, |entries|, slots)
    ensures forall c :: c in RenderFrom(entries, from, slots).charts ==>
      from <= c.slot < |entries| && RenderEntry(entries[c.slot], c.slot, slots) == Drawn(c)
    decreases |entries| - from
  {
    if from < |entries| {
      RenderEntryOutcome(entries[from], from, slots);
      RenderFromComplete(entries, from + 1, slots);
      var o := RenderEntry(entries[from], from, slots);
      if o.Drawn? {
        var rest := RenderFrom(entries, from + 1, slots);
        assert RenderFrom(entries, from, slots).charts == [o.chart] + rest.charts;
        assert ChartSlots([o.chart] + rest.charts) == [o.chart.slot] + ChartSlots(rest.charts) by {
          assert ([o.chart] + rest.charts)[1..] == rest.charts;
        }
      }
    }
  }

  /** The loop throws exactly when some entry with a canvas throws. */
  lemma {:induction false} RenderFromThrows(entries: seq<Js>, from: nat, slots: set<nat>)
    requires from <= |entries|
    ensures RenderFrom(entries, from, slots).threw <==>
      exists i :: from <= i < |entries| && RenderEntry(entries[i], i, slots) == Threw
    decreases |entries| - from
  {
    if from < |entries| {
      RenderFromThrows(entries, from + 1, slots);
    }
  }
}
