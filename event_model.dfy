/**
  One recorded session event as the analysis reads it: its integer `type`
  and, optionally, its `data` object, of which only `source` and `tag`
  are consulted.
 */
module EventModel {
  import opened Wrappers

  /** The members of an event's `data` object that the classification looks at. */
  datatype EventData = EventData(source: Option<int>, tag: Option<string>)

  /** A recorded event; `kind` holds the JSON member `type`. */
  datatype Event = Event(kind: int, data: Option<EventData>)

  // Event type codes.
  const FullSnapshot := 2
  const IncrementalSnapshot := 3
  const Meta := 4
  const Custom := 5

  // Values of `data.source` on incremental snapshots.
  const MouseMove := 1
  const MouseInteraction := 2
  const Scroll := 3

  const CanvasSnapshotTag := "canvas-snapshot"

  /** `e.get('data', {}).get('source')`: None when the event has no `data` or `data` has no `source`. */
  function Source(e: Event): Option<int> {
    if e.data.Some? then e.data.value.source else None
  }

  /** `e.get('data', {}).get('tag')`. */
  function Tag(e: Event): Option<string> {
    if e.data.Some? then e.data.value.tag else None
  }

  /** The label table of the type summary. */
  const TypeNames: map<int, string> := map[
    FullSnapshot := "FullSnapshot (DOM tree with node IDs)",
    IncrementalSnapshot := "IncrementalSnapshot (user interactions)",
    Meta := "Meta (page metadata)",
    Custom := "Custom (our canvas snapshots)"
  ]

  /** `type_names.get(t, 'Unknown')`: codes 2 to 5 have their own label, every other code is "Unknown". */
  function TypeName(t: int): (name: string)
    ensures name == "Unknown" <==> !(FullSnapshot <= t <= Custom)
    ensures t == FullSnapshot ==> name == "FullSnapshot (DOM tree with node IDs)"
    ensures t == IncrementalSnapshot ==> name == "IncrementalSnapshot (user interactions)"
    ensures t == Meta ==> name == "Meta (page metadata)"
    ensures t == Custom ==> name == "Custom (our canvas snapshots)"
  {
    if t in TypeNames then TypeNames[t] else "Unknown"
  }

  predicate IsClick(e: Event) {
    e.kind == IncrementalSnapshot && Source(e) == Some(MouseInteraction)
  }

  predicate IsMouseMove(e: Event) {
    e.kind == IncrementalSnapshot && Source(e) == Some(MouseMove)
  }

  predicate IsScroll(e: Event) {
    e.kind == IncrementalSnapshot && Source(e) == Some(Scroll)
  }

  predicate IsCanvasSnapshot(e: Event) {
    e.kind == Custom && Tag(e) == Some(CanvasSnapshotTag)
  }

  predicate IsFullSnapshot(e: Event) {
    e.kind == FullSnapshot
  }
}
