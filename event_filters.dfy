/**
  The event lists the analysis prints: clicks, mouse moves and scrolls
  among the incremental snapshots, the canvas snapshots among the custom
  events, and the full snapshots; and the example taken from each list.
 */
module EventFilters {
  import opened Wrappers
  import opened EventModel
  import opened Selection
  import opened EventHistogram

  /** Type-3 events with `data.source == 2`. */
  function Clicks(events: seq<Event>): (r: seq<Event>)
    ensures |r| <= |events|
    ensures forall e :: e in r <==> e in events && e.kind == IncrementalSnapshot && Source(e) == Some(MouseInteraction)
  {
    Filter(IsClick, events)
  }

  /** Type-3 events with `data.source == 1`. */
  function MouseMoves(events: seq<Event>): (r: seq<Event>)
    ensures |r| <= |events|
    ensures forall e :: e in r <==> e in events && e.kind == IncrementalSnapshot && Source(e) == Some(MouseMove)
  {
    Filter(IsMouseMove, events)
  }

  /** Type-3 events with `data.source == 3`. */
  function Scrolls(events: seq<Event>): (r: seq<Event>)
    ensures |r| <= |events|
    ensures forall e :: e in r <==> e in events && e.kind == IncrementalSnapshot && Source(e) == Some(Scroll)
  {
    Filter(IsScroll, events)
  }

  /** Type-5 events with `data.tag == "canvas-snapshot"`. */
  function CanvasSnapshots(events: seq<Event>): (r: seq<Event>)
    ensures |r| <= |events|
    ensures forall e :: e in r <==> e in events && e.kind == Custom && Tag(e) == Some(CanvasSnapshotTag)
  {
    Filter(IsCanvasSnapshot, events)
  }

  /** Type-2 events. */
  function FullSnapshots(events: seq<Event>): (r: seq<Event>)
    ensures |r| <= |events|
    ensures forall e :: e in r <==> e in events && e.kind == FullSnapshot
  {
    Filter(IsFullSnapshot, events)
  }

  /** The example event of a list: its first element, when it has one. */
  function Example(list: seq<Event>): (r: Option<Event>)
    ensures r.Some? <==> list != []
    ensures r.Some? ==> r.value in list
  {
    if list == [] then None else Some(list[0])
  }

  /** Whether the node-identifier explanation is printed: only when a full snapshot was recorded. */
  function ExplainsNodeIds(events: seq<Event>): (b: bool)
    ensures b <==> exists e :: e in events && e.kind == FullSnapshot
  {
    var full := FullSnapshots(events);
    assert forall e :: e in events && e.kind == FullSnapshot ==> e in full;
    assert full != [] ==> full[0] in full && full[0].kind == FullSnapshot;
    full != []
  }

  /**
    Each interaction list is exactly its events of `events`: every event of
    type 3 with the list's source, as often as it occurs, in input order,
    and nothing else.
   */
  lemma InteractionListsSelect(events: seq<Event>)
    ensures IsSubsequence(Clicks(events), events)
    ensures forall e :: multiset(Clicks(events))[e] == if IsClick(e) then multiset(events)[e] else 0
    ensures IsSubsequence(MouseMoves(events), events)
    ensures forall e :: multiset(MouseMoves(events))[e] == if IsMouseMove(e) then multiset(events)[e] else 0
    ensures IsSubsequence(Scrolls(events), events)
    ensures forall e :: multiset(Scrolls(events))[e] == if IsScroll(e) then multiset(events)[e] else 0
  {
    FilterSelects(IsClick, events);
    FilterSelects(IsMouseMove, events);
    FilterSelects(IsScroll, events);
  }

  /** The canvas list and the full-snapshot list are selections of `events` in the same sense. */
  lemma SnapshotListsSelect(events: seq<Event>)
    ensures IsSubsequence(CanvasSnapshots(events), events)
    ensures forall e :: multiset(CanvasSnapshots(events))[e] == if IsCanvasSnapshot(e) then multiset(events)[e] else 0
    ensures IsSubsequence(FullSnapshots(events), events)
    ensures forall e :: multiset(FullSnapshots(events))[e] == if IsFullSnapshot(e) then multiset(events)[e] else 0
  {
    FilterSelects(IsCanvasSnapshot, events);
    FilterSelects(IsFullSnapshot, events);
  }

  /** The type count is the length of the selection by that type. */
  lemma {:induction false} CountTypeIsSelection(events: seq<Event>, t: int, p: Event -> bool)
    requires forall e :: p(e) <==> e.kind == t
    ensures CountType(events, t) == |Filter(p, events)|
  {
    if events != [] {
      CountTypeIsSelection(events[1..], t, p);
    }
  }

  /**
    No event is in two of the click, move and scroll lists; all three hold
    only type-3 events of the input, and together they hold at most as many
    events as the summary counts under type 3.
   */
  lemma {:induction false} InteractionListsDisjoint(events: seq<Event>)
    ensures forall e :: !(e in Clicks(events) && e in MouseMoves(events))
    ensures forall e :: !(e in Clicks(events) && e in Scrolls(events))
    ensures forall e :: !(e in MouseMoves(events) && e in Scrolls(events))
    ensures forall e :: e in Clicks(events) + MouseMoves(events) + Scrolls(events) ==>
              e in events && e.kind == IncrementalSnapshot
    ensures |Clicks(events)| + |MouseMoves(events)| + |Scrolls(events)| <= CountType(events, IncrementalSnapshot)
  {
    var incremental := (e: Event) => e.kind == IncrementalSnapshot;
    DisjointSelectionsFit(IsClick, IsMouseMove, IsScroll, incremental, events);
    CountTypeIsSelection(events, IncrementalSnapshot, incremental);
  }

  /**
    A type-5 event counts under type 5 in the summary whatever its tag, but
    only those tagged "canvas-snapshot" are canvas snapshots: one with
    another tag (or none) makes the canvas list shorter than the type-5 count.
   */
  lemma {:induction false} CanvasSnapshotsWithinCustom(events: seq<Event>)
    ensures |CanvasSnapshots(events)| <= CountType(events, Custom)
    ensures (exists e :: e in events && e.kind == Custom && Tag(e) != Some(CanvasSnapshotTag)) ==>
              |CanvasSnapshots(events)| < CountType(events, Custom)
  {
    var custom := (e: Event) => e.kind == Custom;
    StrongerSelectsFewer(IsCanvasSnapshot, custom, events);
    CountTypeIsSelection(events, Custom, custom);
  }

  /**
    An event without `data` is selected by no filter and has no effect on
    what they select: dropping every such event leaves all four lists as
    they are.
   */
  lemma EventsWithoutDataIgnored(events: seq<Event>)
    ensures forall e: Event :: e.data.None? ==>
              e !in Clicks(events) && e !in MouseMoves(events) && e !in Scrolls(events) && e !in CanvasSnapshots(events)
    ensures var withData := Filter((e: Event) => e.data.Some?, events);
            && Clicks(withData) == Clicks(events)
            && MouseMoves(withData) == MouseMoves(events)
            && Scrolls(withData) == Scrolls(events)
            && CanvasSnapshots(withData) == CanvasSnapshots(events)
  {
    var hasData := (e: Event) => e.data.Some?;
    FilterOfFilter(IsClick, hasData, events);
    FilterOfFilter(IsMouseMove, hasData, events);
    FilterOfFilter(IsScroll, hasData, events);
    FilterOfFilter(IsCanvasSnapshot, hasData, events);
  }

  /**
    The example of a list selected by `p` exists exactly when some event
    satisfies `p`, and it is the first such event in input order.
   */
  lemma {:induction false} ExampleIsFirstMatch(p: Event -> bool, events: seq<Event>)
    ensures Example(Filter(p, events)).None? <==> forall e :: e in events ==> !p(e)
    ensures forall i :: 0 <= i < |events| && p(events[i]) && (forall j :: 0 <= j < i ==> !p(events[j])) ==>
              Example(Filter(p, events)) == Some(events[i])
  {
    var selected := Filter(p, events);
    assert selected != [] ==> selected[0] in selected;
    forall i | 0 <= i < |events| && p(events[i]) && (forall j :: 0 <= j < i ==> !p(events[j]))
      ensures Example(Filter(p, events)) == Some(events[i])
    {
      FirstSelected(p, events, i);
    }
  }
}
