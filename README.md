# Recorded-session analysis and SVG inlining, modelled in Dafny

This project models two small pieces of logic from the panel-rrweb demo.

**The recorded-event classifier** (`analyze_events.py`). A recorded session is a list of events. Each event has an integer `type` and, optionally, a `data` object.

- The script counts the events per type. It prints one summary line per type code, in ascending order, with the code's label: 2 = FullSnapshot, 3 = IncrementalSnapshot, 4 = Meta, 5 = Custom, anything else "Unknown".
- It selects the clicks, mouse moves and scrolls. These are the type-3 events whose `data.source` is 2, 1 and 3 respectively.
- It selects the canvas snapshots: the type-5 events whose `data.tag` is "canvas-snapshot".
- It selects the full snapshots: the type-2 events.
- From each non-empty list of clicks, moves, scrolls and canvas snapshots it shows the first event as an example. For the full snapshots it prints a fixed explanation of node identifiers instead, and only when there is at least one.

An event is the datatype `EventModel.Event`. Its field `kind` holds the JSON member `type`, which is a reserved word in Dafny. Its optional `data` carries an optional `source` and an optional `tag`. The filters are `Selection.Filter`, an order-preserving list comprehension, applied to the predicates of `EventModel`.

**The XML-declaration strip** (`app.py`). Before the demo SVG is inlined into HTML, the viewer checks its text. If the text starts with `<?xml` once leading whitespace is removed, the first line is dropped and the remaining lines are joined again with `"\n"`.

`PyStrings` models Python's `str.isspace`, `lstrip()`, `startswith`, `splitlines()` and `"\n".join`. The modelling follows their documented behaviour:

- the full Unicode whitespace set;
- every `splitlines` boundary, with `"\r\n"` counted as one boundary;
- no empty last line after a final boundary.

`SvgInline` states the strip both ways: as Python writes it, and through the reference function `NewlinesNormalized`, which replaces every line boundary with one `"\n"`.

Modules, in dependency order:

- `wrappers.dfy`: `Option`.
- `event_model.dfy`: events, type codes, labels, selection predicates.
- `selection.dfy`: `Filter` and the facts about it.
- `event_histogram.dfy`: the type summary.
- `event_filters.dfy`: the five lists and their examples.
- `py_strings.dfy`: the Python string operations.
- `svg_inline.dfy`: the strip.

## Model

| member | source | states |
|---|---|---|
| EventModel.TypeName | analyze_events.py:15-22 | codes 2, 3, 4 and 5 get their fixed labels from the label table; a code gets "Unknown" exactly when it is not one of them |
| EventHistogram.CountType | analyze_events.py:14 | the number of events of a type is at most the number of events, and positive exactly when some event has that type |
| EventHistogram.TallyCounts | analyze_events.py:14 | the counter has exactly one key per distinct type code, and each key's entry is the number of events of that type |
| EventHistogram.Tally | analyze_events.py:14 | the `Counter`, one pass over the events; by TallyCounts its keys are exactly the distinct type codes and each entry is the number of events of that type |
| EventHistogram.SortedCodes | analyze_events.py:21 | the sorted keys are strictly ascending and are exactly the distinct type codes |
| EventHistogram.Insert | analyze_events.py:21 | adding a code to a strictly ascending list keeps it strictly ascending, and the list then holds exactly the old codes plus the new one |
| EventHistogram.SummaryIsOrderedHistogram | analyze_events.py:14-22 | the summary lines are in strictly ascending order of code, with one line per distinct type; each line shows the code's label and a positive count equal to the number of events of that type |
| EventHistogram.Summary | analyze_events.py:21-22 | the printed summary lines, one per sorted code; by SummaryIsOrderedHistogram they are strictly ascending by code, one per distinct type, each with its label and its positive count, and by SummaryTotal the counts add up to the number of events |
| EventHistogram.SummaryTotal | analyze_events.py:14 | the counts of the summary add up to the total number of events |
| Selection.Filter | analyze_events.py:27 | a list comprehension keeps exactly the elements that satisfy its condition, and is never longer than its input |
| Selection.FilterSelects | analyze_events.py:27 | a list comprehension is a subsequence of its input; each element that satisfies the condition occurs as often as in the input, and every other element does not occur |
| EventFilters.InteractionListsSelect | analyze_events.py:27-48 | clicks, moves and scrolls are each, in input order, exactly the type-3 events whose source is 2, 1 and 3 respectively, with multiplicity |
| EventFilters.Clicks | analyze_events.py:27 | an event is a click exactly when it is in the input with type 3 and `data.source` 2; by InteractionListsSelect the list keeps input order and multiplicity |
| EventFilters.MouseMoves | analyze_events.py:40 | an event is a mouse move exactly when it is in the input with type 3 and `data.source` 1; by InteractionListsSelect the list keeps input order and multiplicity |
| EventFilters.Scrolls | analyze_events.py:48 | an event is a scroll exactly when it is in the input with type 3 and `data.source` 3; by InteractionListsSelect the list keeps input order and multiplicity |
| EventFilters.SnapshotListsSelect | analyze_events.py:56-68 | the canvas list is exactly the type-5 events tagged "canvas-snapshot", and the full-snapshot list is exactly the type-2 events; both are in input order and keep multiplicity |
| EventFilters.CanvasSnapshots | analyze_events.py:56 | an event is a canvas snapshot exactly when it is in the input with type 5 and `data.tag` "canvas-snapshot"; by SnapshotListsSelect the list keeps input order and multiplicity |
| EventFilters.FullSnapshots | analyze_events.py:68 | an event is a full snapshot exactly when it is in the input with type 2; by SnapshotListsSelect the list keeps input order and multiplicity |
| EventFilters.InteractionListsDisjoint | analyze_events.py:27-48 | no event is in two of the click, move and scroll lists; all three hold only type-3 events of the input; together they are no longer than the type-3 count |
| EventFilters.CountTypeIsSelection | analyze_events.py:14-68 | the summary's count for a type is the length of the list of events of that type |
| EventFilters.CanvasSnapshotsWithinCustom | analyze_events.py:14-56 | the canvas list is no longer than the type-5 count, and is strictly shorter when some type-5 event carries another tag or none |
| EventFilters.EventsWithoutDataIgnored | analyze_events.py:27-56 | an event without `data` is in none of the four lists, and removing all such events leaves each list unchanged |
| EventFilters.ExampleIsFirstMatch | analyze_events.py:29-59 | an example exists exactly when some event matches the list's condition, and it is the first matching event in input order |
| EventFilters.Example | analyze_events.py:31 | an example exists exactly when the list is non-empty and is one of its events; by ExampleIsFirstMatch it is the first matching event of the input |
| EventFilters.ExplainsNodeIds | analyze_events.py:68-69 | the node-identifier explanation is printed exactly when the session holds a type-2 event |
| PyStrings.LStrip | app.py:76 | the result is a suffix of the text; what was removed is all whitespace; the result is empty or starts with a non-whitespace character |
| PyStrings.StartsWith | app.py:76 | true exactly when the prefix is no longer than the text and equals the text's first characters |
| SvgInline.HasXmlDeclaration | app.py:76 | the test `lstrip().startswith("<?xml")`; by PaddedDeclaration it passes for any whitespace, blank lines included, in front of a text that starts with "<?xml" |
| PyStrings.SplitLines | app.py:77 | no line contains a line boundary; there are no more lines than characters; there are no lines exactly when the text is empty |
| PyStrings.SplitLinesOfJoin | app.py:77 | splitting lines that were joined with "\n" gives the same lines back, except an empty last line |
| PyStrings.JoinOfSplitLines | app.py:77 | joining the lines of a text with "\n" gives the text with every line boundary written as "\n" and without a final "\n" |
| PyStrings.Join | app.py:77 | `sep.join(parts)`: empty for no parts, otherwise it opens with the first part and closes with the last; by SplitLinesOfJoin splitting a "\n"-join of lines without boundaries gives the lines back |
| SvgInline.StripXmlDeclaration | app.py:76-77 | a text that fails the test is returned unchanged; otherwise the result is what follows the first line boundary, with every boundary written as "\n" and no final "\n" |
| SvgInline.StripLeavesOnlyNewlines | app.py:77 | after a strip, "\n" is the only line boundary left in the text |
| SvgInline.StripKeepsLaterLines | app.py:77 | after a strip, the lines of the result are the input's lines after the first, in order, except an empty last line |
| SvgInline.StripNeverAddsLines | app.py:76-77 | the result never has more lines than the input, and has fewer when the test passes |
| SvgInline.DeclarationAloneStripsToEmpty | app.py:76-77 | a one-line text that passes the test strips to the empty string, with or without a final "\n"; a one-line SVG that opens with its declaration is therefore dropped whole |
| SvgInline.FinalBoundaryNotKept | app.py:77 | for a declaration line and one body line, both followed by the same terminator ("\n", "\r\n" or "\r"), only the body is left: the boundary is normalised and the final one is not kept |
| SvgInline.LeadingBlankLineKeepsDeclaration | app.py:76-77 | after a blank first line, the test passes but only the blank line is removed, so the result still starts with "<?xml" |
| SvgInline.StripXmlDeclarationIntended | app.py:76-77 | the corrected strip: a text that fails the test is returned unchanged; otherwise the line that holds the declaration is removed, past any leading whitespace |
| SvgInline.IntendedRemovesDeclarationLine | app.py:76-77 | with the corrected strip, the declaration line goes whatever whitespace or blank lines precede it, and the rest is kept with boundaries written as "\n" |
| SvgInline.IntendedAgreesWithoutLeadingBreak | app.py:76-77 | when no line boundary precedes the declaration, the corrected strip and the strip as written agree |

## Left out

- Reading the session file with `json.load` and all printing (analyze_events.py:4-5 and every `print`) are I/O. The printed example fields are not modelled either: timestamp, node id, position and canvas size.
- Printing those fields raises `KeyError` or `IndexError` when a field is missing (analyze_events.py:32, 43, 59). That failure is not modelled. `EventFilters.Example` only picks the event.
- The JSON `type` is modelled as an integer that every event has. At line 14, `e['type']` raises `KeyError` for an event without one, so the script stops before any filter runs. A non-integer `type` is not modelled, including a boolean or an integral float that Python counts and compares as equal to an integer code (`True == 1`, `3.0 == 3`).
- A `data` member that is present but is not an object (`"data": null`, say) makes `.get` raise `AttributeError` at analyze_events.py:27, 40, 48 and 56, but only on an event whose type passes the filter's type test first, since `and` stops at a failed test. The same member on a type-4 event raises nothing. The model has no such event: `data` is either absent or an object.
- `source` is modelled only as an optional integer. A boolean or integral float in that member, which Python compares equal to 1, 2 or 3 (`True == 1`, `2.0 == 2`), is not represented, so an event with `"source": true` (a mouse move at analyze_events.py:40) or `"source": 2.0` (a click at line 27) has no counterpart in the model.
- `tag` is modelled as an optional string. A JSON value of another kind in that member compares unequal to "canvas-snapshot" in the source, as it would here.
- Reading the SVG from disk (app.py:75) is I/O. `Path.read_text` already converts "\r\n" and "\r" to "\n". The model does not assume this and handles every `splitlines` boundary.
- The widget layout, CSS, buttons and decision callback of app.py are not part of this model. The same holds for the figure setup, the network fetch and the image decoding in app-back.py, and for the floating-point zoom and browser timers in super_simple_zoom.py.
- The recorder, canvas sampler, transport and replay engine belong to the rrweb library and `assets/demo.js`. Neither is part of this model.

## Findings

| source | as written | input that shows it | evidently intended | confidence | as-written member | corrected member |
|---|---|---|---|---|---|---|
| app.py:76-77 | The test looks past leading whitespace, but the removal drops the text's first line. After a blank first line, only the blank line is removed and the declaration stays. | `"\n<?xml version=\"1.0\"?>\n<svg/>"` strips to `"<?xml version=\"1.0\"?>\n<svg/>"` | remove the line that holds the declaration, the first line after the leading whitespace | low; not executed | SvgInline.LeadingBlankLineKeepsDeclaration | SvgInline.IntendedRemovesDeclarationLine |
