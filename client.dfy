/**
 * The state-changing part of frontend/app.js: the debounced search box,
 * the suggestion list, the search button and the analysis session
 * (`startAnalysis`), over an abstract page.  The page is the status text,
 * the button's disabled flag, the chart list and the other DOM state the
 * handlers write; the network and the timer are events delivered from
 * outside.
 */
module Client {
  import opened Wrappers
  import opened Text
  import opened Json
  import opened Normalizer

  const PROCESSING := "⏳ Идет обработка данных..."
  const FAILED := "❌ Ошибка при загрузке данных"
  const READY := "✅ Аналитика готова"
  const ENTER_NAME := "Введите название"

  /** Shortest trimmed text that is looked up while typing. */
  const LOOKUP_MIN := 2
  /** Shortest trimmed text the search button submits. */
  const SUBMIT_MIN := 3
  /** Longest suggestion list. */
  const MAX_SUGGESTIONS := 5

  /** A record of the /schools search endpoint. */
  datatype Candidate = Candidate(fullName: string, shortName: string, lat: real, lon: real, reviewCount: int)

  /** One entry of the suggestion list: the "not found" placeholder, or a
      clickable school showing its short (else full) name and flagged when
      it has reviews. */
  datatype Suggestion = NotFound | Item(text: string, hasReviews: bool, school: Candidate)

  /** How the /analyze request ends: the fetch (or the body's JSON parse)
      rejected, or a response with its `ok` flag and parsed body. */
  datatype Reply = NoReply | Reply(ok: bool, data: Js)

  /** The four counters written into the summary block. */
  datatype Summary = Summary(total: Js, positive: Js, negative: Js, neutral: Js)

  /** The analysis part of the page. */
  datatype Screen = Screen(status: string, title: Js, summary: Option<Summary>, charts: seq<Chart>, disabled: bool)

  // ---------------------------------------------------------------------
  // Debounced lookup

  /** The query left pending by an `input` event (the previous one is
      always cancelled). */
  function PendingAfter(raw: string): (r: Option<string>)
    ensures r.None? <==> |Trim(raw, JsSpace)| < LOOKUP_MIN
    ensures r.Some? ==> r.value == Trim(raw, JsSpace)
  {
    var q := Trim(raw, JsSpace);
    if |q| < LOOKUP_MIN then None else Some(q)
  }

  datatype SearchEvent = Typed(raw: string) | Fired

  /** One event on the search box: the timer pending afterwards and the
      lookups issued by it. */
  function SearchStep(timer: Option<string>, e: SearchEvent): (r: (Option<string>, seq<string>))
    ensures |r.1| <= 1
    ensures e.Typed? ==> r.1 == [] && r.0 == PendingAfter(e.raw)
    ensures e.Fired? ==> r.0 == None && (r.1 != [] <==> timer.Some?) && (timer.Some? ==> r.1 == [timer.value])
  {
    match e
    case Typed(raw) => (PendingAfter(raw), [])
    case Fired => if timer.Some? then (None, [timer.value]) else (None, [])
  }

  function RunSearch(timer: Option<string>, es: seq<SearchEvent>): (Option<string>, seq<string>)
    decreases |es|
  {
    if es == [] then (timer, [])
    else
      var step := SearchStep(timer, es[0]);
      var rest := RunSearch(step.0, es[1..]);
      (rest.0, step.1 + rest.1)
  }

  predicate AllTyped(es: seq<SearchEvent>) {
    forall i :: 0 <= i < |es| ==> es[i].Typed?
  }

  /** A text the search box may send: trimmed and at least LOOKUP_MIN long. */
  predicate Sendable(q: string) {
    |q| >= LOOKUP_MIN && Trim(q, JsSpace) == q
  }

  /** A keystroke leaves nothing pending or a sendable text. */
  lemma PendingSendable(raw: string)
    ensures PendingAfter(raw).Some? ==> Sendable(PendingAfter(raw).value)
  {
    TrimIdempotent(raw, JsSpace);
  }

  /** Only a pending timer can issue a lookup: a short input never reaches
      the network, and every lookup is a trimmed text of length >= 2. */
  lemma {:induction false} LookupsAreLong(timer: Option<string>, es: seq<SearchEvent>)
    requires timer.Some? ==> Sendable(timer.value)
    ensures var t := RunSearch(timer, es).0;
      t.Some? ==> Sendable(t.value)
    ensures var ls := RunSearch(timer, es).1;
      forall k :: 0 <= k < |ls| ==> Sendable(ls[k])
    decreases |es|
  {
    if es != [] {
      var step := SearchStep(timer, es[0]);
      if es[0].Typed? {
        PendingSendable(es[0].raw);
      }
      LookupsAreLong(step.0, es[1..]);
    }
  }

  /** Keystrokes only replace the pending lookup: after a burst the timer
      holds the last keystroke's trimmed text (or nothing) and nothing has
      been sent. */
  lemma {:induction false} BurstLeavesLast(timer: Option<string>, es: seq<SearchEvent>)
    requires |es| > 0 && AllTyped(es)
    ensures RunSearch(timer, es) == (PendingAfter(es[|es| - 1].raw), [])
    decreases |es|
  {
    var t := PendingAfter(es[0].raw);
    assert SearchStep(timer, es[0]) == (t, []);
    if |es| > 1 {
      assert AllTyped(es[1..]) by {
        forall i | 0 <= i < |es[1..]| ensures es[1..][i].Typed? {
          assert es[1..][i] == es[i + 1];
        }
      }
      assert es[1..][|es[1..]| - 1] == es[|es| - 1];
      BurstLeavesLast(t, es[1..]);
    } else {
      assert es[1..] == [];
      assert RunSearch(t, es[1..]) == (t, []);
      assert es[|es| - 1] == es[0];
      var step := SearchStep(timer, es[0]);
      assert step.0 == t;
      var rest := RunSearch(step.0, es[1..]);
      assert rest == (t, []);
      assert RunSearch(timer, es) == (rest.0, step.1 + rest.1);
      assert step.1 + rest.1 == [];
    }
  }

  /** Debounce: a burst of keystrokes followed by any number of timer
      firings issues at most one lookup, with the last keystroke's text. */
  lemma DebounceOneLookup(timer: Option<string>, burst: seq<SearchEvent>, fires: nat)
    requires |burst| > 0 && AllTyped(burst)
    ensures var ls := RunSearch(timer, burst + seq(fires, _ => Fired)).1;
      |ls| <= 1 && (|ls| == 1 ==> ls[0] == Trim(burst[|burst| - 1].raw, JsSpace))
      && (|ls| == 1 <==> fires > 0 && |Trim(burst[|burst| - 1].raw, JsSpace)| >= LOOKUP_MIN)
  {
    BurstLeavesLast(timer, burst);
    RunAppend(timer, burst, seq(fires, _ => Fired));
    FiresAfter(PendingAfter(burst[|burst| - 1].raw), fires);
  }

  lemma {:induction false} RunAppend(timer: Option<string>, a: seq<SearchEvent>, b: seq<SearchEvent>)
    ensures var first := RunSearch(timer, a);
      RunSearch(timer, a + b) == (RunSearch(first.0, b).0, first.1 + RunSearch(first.0, b).1)
    decreases |a|
  {
    if a != [] {
      assert (a + b)[0] == a[0];
      assert (a + b)[1..] == a[1..] + b;
      var step := SearchStep(timer, a[0]);
      RunAppend(step.0, a[1..], b);
      var mid := RunSearch(step.0, a[1..]);
      var tail := RunSearch(mid.0, b);
      var whole := RunSearch(step.0, a[1..] + b);
      assert whole == (tail.0, mid.1 + tail.1);
      assert RunSearch(timer, a) == (mid.0, step.1 + mid.1);
      assert RunSearch(timer, a + b) == (whole.0, step.1 + whole.1);
      ConcatAssoc(step.1, mid.1, tail.1);
    } else {
      assert a + b == b;
      assert RunSearch(timer, a) == (timer, []);
      assert [] + RunSearch(timer, b).1 == RunSearch(timer, b).1;
    }
  }

  lemma ConcatAssoc<T>(x: seq<T>, y: seq<T>, z: seq<T>)
    ensures x + (y + z) == (x + y) + z
  {
  }

  lemma {:induction false} FiresAfter(timer: Option<string>, n: nat)
    ensures RunSearch(timer, seq(n, _ => Fired)).1 == (if n > 0 && timer.Some? then [timer.value] else [])
    decreases n
  {
    if n > 0 {
      var es := seq(n, _ => Fired);
      assert es[1..] == seq(n - 1, _ => Fired);
      FiresAfter(None, n - 1);
    }
  }

  // ---------------------------------------------------------------------
  // Suggestion list

  function ItemFor(s: Candidate): Suggestion {
    Item(if s.shortName != "" then s.shortName else s.fullName, s.reviewCount > 0, s)
  }

  /** `renderSuggestions(data)`: the placeholder for an empty answer, then
      the first five schools. */
  function SuggestionList(data: seq<Candidate>): (r: seq<Suggestion>)
    ensures 1 <= |r| <= MAX_SUGGESTIONS
    ensures NotFound in r <==> |data| == 0
  {
    var n := if |data| < MAX_SUGGESTIONS then |data| else MAX_SUGGESTIONS;
    (if |data| == 0 then [NotFound] else []) + seq(n, k requires 0 <= k < n && n <= |data| => ItemFor(data[k]))
  }

  /** The list holds one to five entries; an empty answer shows exactly the
      placeholder; otherwise entry k is school k, shown by its short name,
      falling back to its full name. */
  lemma SuggestionListShape(data: seq<Candidate>)
    ensures 1 <= |SuggestionList(data)| <= MAX_SUGGESTIONS
    ensures |data| == 0 <==> SuggestionList(data) == [NotFound]
    ensures |data| > 0 ==> |SuggestionList(data)| == if |data| < 5 then |data| else 5
    ensures |data| > 0 ==> forall k :: 0 <= k < |SuggestionList(data)| ==>
      var s := SuggestionList(data)[k];
      s.Item? && s.school == data[k] && s.hasReviews == (data[k].reviewCount > 0)
      && s.text == (if data[k].shortName != "" then data[k].shortName else data[k].fullName)
  {
    if |data| > 0 {
      assert SuggestionList(data)[0] == ItemFor(data[0]);
    }
  }

  // ---------------------------------------------------------------------
  // Analysis session

  /** The synchronous part of `startAnalysis` on the analysis screen, for a
      non-empty query: processing status, button disabled, all charts gone. */
  function Started(sc: Screen): (r: Screen)
    ensures r.status == PROCESSING && r.charts == [] && r.disabled
    ensures r.title == sc.title && r.summary == sc.summary
  {
    sc.(status := PROCESSING, charts := [], disabled := true)
  }

  function SummaryOf(stats: Js): Summary
    requires !Nullish(stats)
  {
    Summary(Prop(stats, "total").value, Prop(stats, "positive").value,
            Prop(stats, "negative").value, Prop(stats, "neutral").value)
  }

  /** The request failed: fetch rejected, non-2xx status, or falsy body. */
  predicate Failed(reply: Reply) {
    reply.NoReply? || !reply.ok || !Truthy(reply.data)
  }

  /** The continuation of `startAnalysis` once the request settles.  A
      TypeError (missing `stats`, non-array `analytics`, a malformed stacked
      entry) ends the handler where it is thrown, leaving the button as it
      was. */
  function Settled(sc: Screen, reply: Reply, slots: set<nat>): (r: Screen)
    ensures sc.charts <= r.charts
    ensures Failed(reply) ==> r == sc.(status := FAILED, disabled := false)
    ensures !Failed(reply) ==> r.status == READY && r.title == Prop(reply.data, "school_name").value
  {
    if Failed(reply) then sc.(status := FAILED, disabled := false)
    else Answered(sc.(title := Prop(reply.data, "school_name").value, status := READY), reply.data, slots)
  }

  /** After the name and the ready status are shown: the counters, then the
      charts. */
  function Answered(sc: Screen, data: Js, slots: set<nat>): Screen
    requires !Nullish(data)
  {
    var stats := Prop(data, "stats").value;
    if Nullish(stats) then sc
    else
      match AnalyticsEntries(data)
      case None => sc.(summary := Some(SummaryOf(stats)))
      case Some(entries) => Draw(sc.(summary := Some(SummaryOf(stats))), entries, slots)
  }

  /** The analytics `forEach` and the final re-enabling of the button.  The
      canvases of the charts still in the list are in use. */
  function Draw(sc: Screen, entries: seq<Js>, slots: set<nat>): (r: Screen)
    ensures r.status == sc.status && r.title == sc.title && r.summary == sc.summary
    ensures sc.charts <= r.charts
    ensures forall k :: |sc.charts| <= k < |r.charts| ==> r.charts[k].slot !in Occupied(sc.charts)
  {
    RenderOnAvoids(entries, 0, slots, Occupied(sc.charts));
    var drawn := RenderOn(entries, 0, slots, Occupied(sc.charts));
    sc.(charts := sc.charts + drawn.charts, disabled := if drawn.threw then sc.disabled else false)
  }

  /** Draw read off a known rendering. */
  lemma DrawIs(sc: Screen, entries: seq<Js>, slots: set<nat>, drawn: seq<Chart>, threw: bool)
    requires RenderOn(entries, 0, slots, Occupied(sc.charts)) == Rendering(drawn, threw)
    ensures Draw(sc, entries, slots) == sc.(charts := sc.charts + drawn, disabled := if threw then sc.disabled else false)
  {
  }

  /** The canvases holding a chart that has not been destroyed. */
  function Occupied(cs: seq<Chart>): set<nat> {
    set c | c in cs :: c.slot
  }

  /** Entry `i` on a page whose canvases `busy` are in use: the `indexAxis`
      option needs Chart.js 3 or later, where `new Chart` on a canvas in use
      throws. */
  function Outcome(item: Js, i: nat, slots: set<nat>, busy: set<nat>): EntryOutcome {
    var o := RenderEntry(item, i, slots);
    if o.Drawn? && i in busy then Threw else o
  }

  /** The `forEach` from entry `from` on, with the canvases `busy` in use. */
  function RenderOn(entries: seq<Js>, from: nat, slots: set<nat>, busy: set<nat>): Rendering
    requires from <= |entries|
    decreases |entries| - from
  {
    if from == |entries| then Rendering([], false)
    else
      match Outcome(entries[from], from, slots, busy)
      case Skipped => RenderOn(entries, from + 1, slots, busy)
      case Threw => Rendering([], true)
      case Drawn(c) =>
        var rest := RenderOn(entries, from + 1, slots, busy);
        Rendering([c] + rest.charts, rest.threw)
  }

  /** On free canvases the loop is the rendering of the entries alone. */
  lemma {:induction false} RenderOnFree(entries: seq<Js>, from: nat, slots: set<nat>)
    requires from <= |entries|
    ensures RenderOn(entries, from, slots, {}) == RenderFrom(entries, from, slots)
    decreases |entries| - from
  {
    if from < |entries| {
      RenderOnFree(entries, from + 1, slots);
    }
  }

  /** No chart is drawn on a canvas in use. */
  lemma {:induction false} RenderOnAvoids(entries: seq<Js>, from: nat, slots: set<nat>, busy: set<nat>)
    requires from <= |entries|
    ensures forall c :: c in RenderOn(entries, from, slots, busy).charts ==> c.slot !in busy
    decreases |entries| - from
  {
    if from < |entries| {
      RenderEntryOutcome(entries[from], from, slots);
      RenderOnAvoids(entries, from + 1, slots, busy);
    }
  }

  /** An entry that would be drawn on a canvas in use makes the loop throw
      there, after drawing only charts for earlier entries. */
  lemma {:induction false} RenderOnCollides(entries: seq<Js>, from: nat, slots: set<nat>, busy: set<nat>, i: nat)
    requires from <= i < |entries| && i in slots && i in busy
    requires !RenderFrom(entries, from, slots).threw
    ensures RenderOn(entries, from, slots, busy).threw
    ensures forall c :: c in RenderOn(entries, from, slots, busy).charts ==> c.slot < i
    decreases |entries| - from
  {
    RenderEntryOutcome(entries[from], from, slots);
    if from < i && Outcome(entries[from], from, slots, busy) != Threw {
      RenderOnCollides(entries, from + 1, slots, busy, i);
    }
  }

  /** A rendering that runs to its end holds every canvas of its entries. */
  lemma {:induction false} RenderFromHolds(entries: seq<Js>, from: nat, slots: set<nat>, i: nat)
    requires from <= i < |entries| && i in slots
    requires !RenderFrom(entries, from, slots).threw
    ensures i in Occupied(RenderFrom(entries, from, slots).charts)
    decreases |entries| - from
  {
    RenderEntryOutcome(entries[from], from, slots);
    var o := RenderEntry(entries[from], from, slots);
    if from == i {
      assert o.chart in RenderFrom(entries, from, slots).charts;
    } else {
      RenderFromHolds(entries, from + 1, slots, i);
      var rest := RenderFrom(entries, from + 1, slots).charts;
      var c :| c in rest && c.slot == i;
      assert c in RenderFrom(entries, from, slots).charts;
    }
  }

  /** After the first `i` entries: the charts pushed so far are `drawn`, and
      the rest of the loop produces what remains of the whole rendering. */
  predicate RenderedUpTo(entries: seq<Js>, i: nat, slots: set<nat>, busy: set<nat>, drawn: seq<Chart>)
    requires i <= |entries|
  {
    RenderOn(entries, 0, slots, busy)
      == Rendering(drawn + RenderOn(entries, i, slots, busy).charts, RenderOn(entries, i, slots, busy).threw)
  }

  /** One iteration of the analytics loop: a skipped entry pushes nothing,
      a drawn one pushes its chart, and a throwing one ends the rendering
      with the charts drawn so far. */
  lemma {:induction false} RenderOnStep(entries: seq<Js>, i: nat, slots: set<nat>, busy: set<nat>, drawn: seq<Chart>)
    requires i < |entries| && RenderedUpTo(entries, i, slots, busy, drawn)
    ensures var o := Outcome(entries[i], i, slots, busy);
      && (o.Threw? ==> RenderOn(entries, 0, slots, busy) == Rendering(drawn, true))
      && (o.Skipped? ==> RenderedUpTo(entries, i + 1, slots, busy, drawn))
      && (o.Drawn? ==> RenderedUpTo(entries, i + 1, slots, busy, drawn + [o.chart]))
  {
    var o := Outcome(entries[i], i, slots, busy);
    var rest := RenderOn(entries, i + 1, slots, busy);
    if o.Drawn? {
      assert drawn + ([o.chart] + rest.charts) == (drawn + [o.chart]) + rest.charts;
    } else if o.Threw? {
      assert drawn + [] == drawn;
    }
  }

  /** The loop ran to its end: what it drew is the whole rendering. */
  lemma {:induction false} RenderedAll(entries: seq<Js>, slots: set<nat>, busy: set<nat>, drawn: seq<Chart>)
    requires RenderedUpTo(entries, |entries|, slots, busy, drawn)
    ensures RenderOn(entries, 0, slots, busy) == Rendering(drawn, false)
  {
    assert drawn + [] == drawn;
  }

  /** A well-formed reply: the handler runs to its end. */
  predicate Complete(reply: Reply, slots: set<nat>) {
    && !Failed(reply)
    && !Nullish(Prop(reply.data, "stats").value)
    && AnalyticsEntries(reply.data).Some?
    && !RenderFrom(AnalyticsEntries(reply.data).value, 0, slots).threw
  }

  /** A failed request shows the error status, no charts, and re-enables
      the button. */
  lemma {:induction false} SessionFails(sc: Screen, reply: Reply, slots: set<nat>)
    requires Failed(reply)
    ensures var after := Settled(Started(sc), reply, slots);
      after.status == FAILED && after.charts == [] && !after.disabled
      && after.title == sc.title && after.summary == sc.summary
  {
  }

  /** A well-formed reply shows the ready status, the school name and the
      counters, draws exactly one chart per analytics entry whose canvas
      exists (in entry order, each the chart for its entry), and re-enables
      the button. */
  lemma SessionSucceeds(sc: Screen, reply: Reply, slots: set<nat>)
    requires Complete(reply, slots)
    ensures var after := Settled(Started(sc), reply, slots);
      var entries := AnalyticsEntries(reply.data).value;
      && after.status == READY && !after.disabled
      && after.title == Prop(reply.data, "school_name").value
      && after.summary == Some(SummaryOf(Prop(reply.data, "stats").value))
      && ChartSlots(after.charts) == SlotsUsed(0, |entries|, slots)
      && forall c :: c in after.charts ==>
           c.slot < |entries| && RenderEntry(entries[c.slot], c.slot, slots) == Drawn(c)
  {
    var entries := AnalyticsEntries(reply.data).value;
    RenderFromComplete(entries, 0, slots);
    var sc1 := Started(sc).(title := Prop(reply.data, "school_name").value, status := READY);
    var sc2 := sc1.(summary := Some(SummaryOf(Prop(reply.data, "stats").value)));
    assert Occupied(sc2.charts) == {};
    RenderOnFree(entries, 0, slots);
    assert Settled(Started(sc), reply, slots) == Draw(sc2, entries, slots);
    assert [] + RenderFrom(entries, 0, slots).charts == RenderFrom(entries, 0, slots).charts;
  }

  /** A reply that makes the handler throw leaves the button disabled. */
  lemma {:induction false} SessionThrowsStaysDisabled(sc: Screen, reply: Reply, slots: set<nat>)
    requires !Failed(reply) && !Complete(reply, slots)
    ensures Settled(Started(sc), reply, slots).disabled
    ensures Settled(Started(sc), reply, slots).status == READY
  {
    assert Occupied(Started(sc).charts) == {};
    if !Nullish(Prop(reply.data, "stats").value) && AnalyticsEntries(reply.data).Some? {
      RenderOnFree(AnalyticsEntries(reply.data).value, 0, slots);
    }
  }

  /** Resubmitting a query that gets the same reply redraws the same screen. */
  lemma {:induction false} Resubmit(sc: Screen, reply: Reply, slots: set<nat>)
    ensures var once := Settled(Started(sc), reply, slots);
      Settled(Started(once), reply, slots) == once
  {
  }

  /** There is no stale-response guard: when the earlier request A settles
      after the later request B, A's reply decides the status and the school
      name.  B's charts stay drawn; A's are drawn after them, never on a
      canvas B holds, and the button stays enabled as B left it, whether or
      not A's loop throws. */
  lemma {:induction false} LateReplyWins(sc: Screen, replyA: Reply, replyB: Reply, slots: set<nat>)
    requires Complete(replyA, slots) && Complete(replyB, slots)
    ensures var after := Settled(Settled(Started(Started(sc)), replyB, slots), replyA, slots);
      var drawnB := RenderFrom(AnalyticsEntries(replyB.data).value, 0, slots).charts;
      var drawnA := RenderOn(AnalyticsEntries(replyA.data).value, 0, slots, Occupied(drawnB));
      && after.status == READY
      && after.title == Prop(replyA.data, "school_name").value
      && after.charts == drawnB + drawnA.charts
      && !after.disabled
      && forall c :: c in drawnA.charts ==> c.slot !in Occupied(drawnB)
  {
    var entriesA := AnalyticsEntries(replyA.data).value;
    var entriesB := AnalyticsEntries(replyB.data).value;
    var drawnB := RenderFrom(entriesB, 0, slots).charts;
    var mid := Settled(Started(Started(sc)), replyB, slots);
    MidScreen(Started(sc), replyB, slots);
    assert mid.charts == drawnB;
    var sc1 := mid.(title := Prop(replyA.data, "school_name").value, status := READY);
    var sc2 := sc1.(summary := Some(SummaryOf(Prop(replyA.data, "stats").value)));
    assert Settled(mid, replyA, slots) == Draw(sc2, entriesA, slots);
    RenderOnAvoids(entriesA, 0, slots, Occupied(drawnB));
  }

  /** The screen a well-formed reply leaves after a fresh start: its charts,
      drawn on free canvases, and the button enabled. */
  lemma {:induction false} MidScreen(sc: Screen, reply: Reply, slots: set<nat>)
    requires Complete(reply, slots)
    ensures Settled(Started(sc), reply, slots).charts
      == RenderFrom(AnalyticsEntries(reply.data).value, 0, slots).charts
    ensures !Settled(Started(sc), reply, slots).disabled
  {
    var entries := AnalyticsEntries(reply.data).value;
    var sc1 := Started(sc).(title := Prop(reply.data, "school_name").value, status := READY);
    var sc2 := sc1.(summary := Some(SummaryOf(Prop(reply.data, "stats").value)));
    assert Occupied(sc2.charts) == {};
    RenderOnFree(entries, 0, slots);
    assert Settled(Started(sc), reply, slots) == Draw(sc2, entries, slots);
    assert [] + RenderFrom(entries, 0, slots).charts == RenderFrom(entries, 0, slots).charts;
  }

  /** When both replies have an entry for a common canvas i, A's chart for it
      cannot be created: A's loop throws there, having drawn only charts for
      canvases before i. */
  lemma {:induction false} LateReplyCollides(sc: Screen, replyA: Reply, replyB: Reply, slots: set<nat>, i: nat)
    requires Complete(replyA, slots) && Complete(replyB, slots)
    requires i in slots
    requires i < |AnalyticsEntries(replyA.data).value| && i < |AnalyticsEntries(replyB.data).value|
    ensures var after := Settled(Settled(Started(Started(sc)), replyB, slots), replyA, slots);
      var drawnB := RenderFrom(AnalyticsEntries(replyB.data).value, 0, slots).charts;
      var drawnA := RenderOn(AnalyticsEntries(replyA.data).value, 0, slots, Occupied(drawnB));
      && drawnA.threw
      && |drawnB| <= |after.charts|
      && forall c :: c in after.charts[|drawnB|..] ==> c.slot < i
  {
    LateReplyWins(sc, replyA, replyB, slots);
    var entriesA := AnalyticsEntries(replyA.data).value;
    var entriesB := AnalyticsEntries(replyB.data).value;
    RenderFromHolds(entriesB, 0, slots, i);
    RenderOnCollides(entriesA, 0, slots, Occupied(RenderFrom(entriesB, 0, slots).charts), i);
  }

  // ---------------------------------------------------------------------
  // The page

  class Page {
    /** Indices i for which a canvas `chart-i` exists. */
    const slots: set<nat>

    var inputValue: string
    /** The debounce timer: the query it will look up when it fires. */
    var timer: Option<string>
    /** /schools?q= requests issued, in order. */
    var lookups: seq<string>
    var listHidden: bool
    var suggestions: seq<Suggestion>
    /** `alert` messages shown, in order. */
    var alerts: seq<string>

    var viewHidden: bool
    var status: string
    var title: Js
    var summary: Option<Summary>
    /** The module-level `charts` array. */
    var charts: seq<Chart>
    /** Charts destroyed so far, in order. */
    var destroyed: seq<Chart>
    var disabled: bool
    /** /analyze requests issued, in order. */
    var requests: seq<string>

    /** Last content shown in the side panel, whether it is visible, and the
        main container's two-column layout flag. */
    var panel: Option<Panel>
    var panelOpen: bool
    var layoutActive: bool

    function View(): Screen
      reads this
    {
      Screen(status, title, summary, charts, disabled)
    }

    constructor(slots: set<nat>)
      ensures this.slots == slots
      ensures inputValue == "" && timer == None && lookups == [] && listHidden && suggestions == []
      ensures alerts == [] && viewHidden && charts == [] && destroyed == [] && !disabled && requests == []
      ensures View() == Screen("", Undefined, None, [], false)
      ensures panel == None && !panelOpen && !layoutActive
    {
      this.slots := slots;
      inputValue, timer, lookups, listHidden, suggestions := "", None, [], true, [];
      alerts, viewHidden, status, title, summary := [], true, "", Undefined, None;
      charts, destroyed, disabled, requests := [], [], false, [];
      panel, panelOpen, layoutActive := None, false, false;
    }

    /** The `input` listener: cancel the pending lookup, then hide the list
        for a short text or schedule one lookup of the trimmed text. */
    method Input(raw: string)
      modifies this`inputValue, this`timer, this`listHidden
      ensures inputValue == raw
      ensures timer == PendingAfter(raw) == SearchStep(old(timer), Typed(raw)).0
      ensures listHidden == (old(listHidden) || |Trim(raw, JsSpace)| < LOOKUP_MIN)
    {
      inputValue := raw;
      timer := None;
      var q := Trim(raw, JsSpace);
      if |q| < LOOKUP_MIN {
        listHidden := true;
        return;
      }
      timer := Some(q);
    }

    /** The debounce timer fires: the pending lookup is sent. */
    method TimerFires()
      modifies this`timer, this`lookups
      ensures timer == SearchStep(old(timer), Fired).0 == None
      ensures lookups == old(lookups) + SearchStep(old(timer), Fired).1
    {
      if timer.Some? {
        lookups := lookups + [timer.value];
        timer := None;
      }
    }

    /** The lookup answered; a null body counts as an empty list. */
    method LookupAnswered(data: Option<seq<Candidate>>)
      modifies this`suggestions, this`listHidden
      ensures suggestions == SuggestionList(data.GetOr([])) && !listHidden
    {
      RenderSuggestions(data.GetOr([]));
    }

    /** `renderSuggestions`: clear the list (or show the placeholder), append
        the first five schools, show the list. */
    method RenderSuggestions(data: seq<Candidate>)
      modifies this`suggestions, this`listHidden
      ensures suggestions == SuggestionList(data) && !listHidden
    {
      suggestions := if |data| == 0 then [NotFound] else [];
      var n := if |data| < MAX_SUGGESTIONS then |data| else MAX_SUGGESTIONS;
      var k := 0;
      while k < n
        invariant 0 <= k <= n
        invariant suggestions == (if |data| == 0 then [NotFound] else [])
                                 + seq(k, j requires 0 <= j < k => ItemFor(data[j]))
      {
        suggestions := suggestions + [ItemFor(data[k])];
        k := k + 1;
      }
      listHidden := false;
    }

    /** A click on suggestion k: fill the input, hide the list and analyse
        the school's full name.  The placeholder does nothing. */
    method SelectSuggestion(k: nat)
      modifies this`inputValue, this`listHidden, this`viewHidden, this`status, this`charts,
               this`destroyed, this`disabled, this`requests
      ensures var chosen := k < |old(suggestions)| && old(suggestions)[k].Item?;
        && (chosen ==> listHidden && requests == old(requests) + (if old(suggestions)[k].school.fullName == "" then [] else [old(suggestions)[k].school.fullName]))
        && (chosen && old(suggestions)[k].school.fullName == "" ==> inputValue == "" && View() == old(View()))
        && (chosen && old(suggestions)[k].school.fullName != "" ==>
              inputValue == old(suggestions)[k].school.fullName && View() == Started(old(View())))
        && (!chosen ==> inputValue == old(inputValue) && listHidden == old(listHidden)
                        && requests == old(requests) && View() == old(View()))
    {
      if k < |suggestions| && suggestions[k].Item? {
        var name := suggestions[k].school.fullName;
        inputValue := name;
        listHidden := true;
        StartAnalysis(name);
      }
    }

    /** `keypress` on the input: Enter clicks the search button. */
    method KeyPress(key: string)
      modifies this`alerts, this`inputValue, this`viewHidden, this`status, this`charts,
               this`destroyed, this`disabled, this`requests
      ensures key != "Enter" ==> alerts == old(alerts) && requests == old(requests) && View() == old(View())
      ensures key == "Enter" && old(disabled) ==> alerts == old(alerts) && requests == old(requests) && View() == old(View())
      ensures key == "Enter" && !old(disabled) && |Trim(old(inputValue), JsSpace)| < SUBMIT_MIN ==>
        alerts == old(alerts) + [ENTER_NAME] && requests == old(requests) && View() == old(View())
      ensures key == "Enter" && !old(disabled) && |Trim(old(inputValue), JsSpace)| >= SUBMIT_MIN ==>
        requests == old(requests) + [Trim(old(inputValue), JsSpace)] && View() == Started(old(View()))
    {
      if key == "Enter" {
        ClickSearch();
      }
    }

    /** The search button: a disabled button ignores clicks; a trimmed text
        shorter than 3 only raises an alert; otherwise it is analysed. */
    method ClickSearch()
      modifies this`alerts, this`inputValue, this`viewHidden, this`status, this`charts,
               this`destroyed, this`disabled, this`requests
      ensures old(disabled) ==> alerts == old(alerts) && requests == old(requests) && View() == old(View())
      ensures !old(disabled) && |Trim(old(inputValue), JsSpace)| < SUBMIT_MIN ==>
        alerts == old(alerts) + [ENTER_NAME] && requests == old(requests) && View() == old(View())
      ensures !old(disabled) && |Trim(old(inputValue), JsSpace)| >= SUBMIT_MIN ==>
        alerts == old(alerts) && inputValue == Trim(old(inputValue), JsSpace)
        && requests == old(requests) + [Trim(old(inputValue), JsSpace)] && View() == Started(old(View()))
    {
      if disabled {
        return;
      }
      var q := Trim(inputValue, JsSpace);
      if |q| < SUBMIT_MIN {
        alerts := alerts + [ENTER_NAME];
        return;
      }
      StartAnalysis(q);
    }

    /** `startAnalysis(query)` up to its `await`: an empty query does
        nothing; otherwise the input shows the query, the button is disabled,
        the view shown, the status set to processing, every chart destroyed
        and the list emptied, and the /analyze request issued. */
    method StartAnalysis(query: string)
      modifies this`inputValue, this`viewHidden, this`status, this`charts, this`destroyed,
               this`disabled, this`requests
      ensures query == "" ==> (inputValue == old(inputValue) && viewHidden == old(viewHidden)
        && View() == old(View()) && destroyed == old(destroyed) && requests == old(requests))
      ensures query != "" ==> (inputValue == query && !viewHidden && View() == Started(old(View()))
        && destroyed == old(destroyed) + old(charts) && requests == old(requests) + [query])
    {
      if query == "" {
        return;
      }
      inputValue := query;
      disabled := true;
      viewHidden := false;
      status := PROCESSING;
      destroyed := destroyed + charts;
      charts := [];
      requests := requests + [query];
    }

    /** `startAnalysis(query)` after its `await`: whatever request settles
        is applied to the page. */
    method AnalysisSettled(reply: Reply)
      modifies this`status, this`title, this`summary, this`charts, this`disabled
      ensures View() == Settled(old(View()), reply, slots)
    {
      if Failed(reply) {
        status := FAILED;
        disabled := false;
        return;
      }
      var data := reply.data;
      title := Prop(data, "school_name").value;
      status := READY;
      var stats := Prop(data, "stats").value;
      if Nullish(stats) {
        return;
      }
      summary := Some(SummaryOf(stats));
      var found := AnalyticsEntries(data);
      if found.None? {
        return;
      }
      DrawEntries(found.value);
    }

    /** The analytics `forEach`: push the chart of every entry that has a
        canvas, stop at the first entry that throws, and re-enable the
        button when the loop ran to its end. */
    method DrawEntries(entries: seq<Js>)
      modifies this`charts, this`disabled
      ensures View() == Draw(old(View()), entries, slots)
    {
      ghost var before := View();
      var busy := Occupied(charts);
      ghost var drawn: seq<Chart> := [];
      var i := 0;
      assert [] + RenderOn(entries, 0, slots, busy).charts == RenderOn(entries, 0, slots, busy).charts;
      while i < |entries|
        invariant 0 <= i <= |entries|
        invariant charts == before.charts + drawn && disabled == before.disabled
        invariant RenderedUpTo(entries, i, slots, busy, drawn)
      {
        var outcome := Outcome(entries[i], i, slots, busy);
        RenderOnStep(entries, i, slots, busy, drawn);
        if outcome.Threw? {
          DrawIs(before, entries, slots, drawn, true);
          return;
        }
        if outcome.Drawn? {
          assert before.charts + drawn + [outcome.chart] == before.charts + (drawn + [outcome.chart]);
          charts := charts + [outcome.chart];
          drawn := drawn + [outcome.chart];
        }
        i := i + 1;
      }
      RenderedAll(entries, slots, busy, drawn);
      DrawIs(before, entries, slots, drawn, false);
      disabled := false;
    }

    /** A click on chart `index`: a bar chart's handler opens the side panel
        for the first element hit; stacked charts have no handler. */
    method ClickChart(index: nat, elements: seq<nat>)
      modifies this`panel, this`panelOpen, this`layoutActive
      ensures var hit := if index < |charts| && charts[index].Bars?
                         then ClickBar(charts[index].rawLabels, charts[index].rawValues, elements) else None;
        && (hit.Some? ==> panel == hit && panelOpen && layoutActive)
        && (hit.None? ==> panel == old(panel) && panelOpen == old(panelOpen) && layoutActive == old(layoutActive))
    {
      if index < |charts| && charts[index].Bars? {
        var hit := ClickBar(charts[index].rawLabels, charts[index].rawValues, elements);
        if hit.Some? {
          panel := hit;
          panelOpen := true;
          layoutActive := true;
        }
      }
    }

    /** `closeReviews`: hide the panel and leave the two-column layout. */
    method CloseReviews()
      modifies this`panelOpen, this`layoutActive
      ensures !panelOpen && !layoutActive
    {
      panelOpen := false;
      layoutActive := false;
    }
  }
}
