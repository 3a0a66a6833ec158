/**
  The event type summary: the per-type counts of `Counter(...)` over the
  events, listed in ascending order of type code with their labels.
 */
module EventHistogram {
  import opened EventModel

  /** The distinct type codes among the events. */
  function TypesOf(events: seq<Event>): set<int> {
    set e | e in events :: e.kind
  }

  /** Reference count: how many events have type `t`. */
  function CountType(events: seq<Event>, t: int): (n: nat)
    ensures n <= |events|
    ensures n > 0 <==> t in TypesOf(events)
  {
    if events == [] then 0
    else
      var n := (if events[0].kind == t then 1 else 0) + CountType(events[1..], t);
      assert TypesOf(events) == {events[0].kind} + TypesOf(events[1..]) by {
        assert events == [events[0]] + events[1..];
      }
      n
  }

  /** The `Counter`: one pass over the events that adds one to the entry of each event's type. */
  function Tally(events: seq<Event>): map<int, nat> {
    if events == [] then map[]
    else
      var counts := Tally(events[..|events| - 1]);
      var t := events[|events| - 1].kind;
      counts[t := (if t in counts then counts[t] else 0) + 1]
  }

  lemma {:induction false} CountTypeSnoc(events: seq<Event>, e: Event, t: int)
    ensures CountType(events + [e], t) == CountType(events, t) + (if e.kind == t then 1 else 0)
  {
    if events != [] {
      assert (events + [e])[1..] == events[1..] + [e];
      CountTypeSnoc(events[1..], e, t);
    } else {
      assert [] + [e] == [e];
    }
  }

  /** The counter has one key per distinct type code, and its entry is the number of events of that type. */
  lemma {:induction false} TallyCounts(events: seq<Event>)
    ensures Tally(events).Keys == TypesOf(events)
    ensures forall t :: t in Tally(events) ==> Tally(events)[t] == CountType(events, t)
  {
    if events != [] {
      var init, e := events[..|events| - 1], events[|events| - 1];
      assert events == init + [e];
      TallyCounts(init);
      assert TypesOf(events) == TypesOf(init) + {e.kind};
      forall t ensures CountType(events, t) == CountType(init, t) + (if e.kind == t then 1 else 0) {
        CountTypeSnoc(init, e, t);
      }
    }
  }

  predicate StrictlyAscending(s: seq<int>) {
    forall i, j :: 0 <= i < j < |s| ==> s[i] < s[j]
  }

  lemma ConsAscending(x: int, s: seq<int>)
    requires StrictlyAscending(s) && forall y :: y in s ==> x < y
    ensures StrictlyAscending([x] + s)
  {
    var r := [x] + s;
    forall i, j | 0 <= i < j < |r| ensures r[i] < r[j] {
      assert r[j] == s[j - 1] && s[j - 1] in s;
      if i > 0 {
        assert r[i] == s[i - 1];
      }
    }
  }

  /** Inserting a code into an ascending list of distinct codes, unless it is already there. */
  function Insert(codes: seq<int>, t: int): (r: seq<int>)
    requires StrictlyAscending(codes)
    ensures StrictlyAscending(r)
    ensures forall x :: x in r <==> x in codes || x == t
  {
    if codes == [] then [t]
    else if t < codes[0] then [t] + codes
    else if t == codes[0] then codes
    else
      var rest := Insert(codes[1..], t);
      assert forall x :: x in codes[1..] ==> codes[0] < x;
      ConsAscending(codes[0], rest);
      assert codes == [codes[0]] + codes[1..];
      [codes[0]] + rest
  }

  /** `sorted(...)` of the counter's keys: the distinct type codes in ascending order. */
  function SortedCodes(events: seq<Event>): (codes: seq<int>)
    ensures StrictlyAscending(codes)
    ensures forall t :: t in codes <==> t in TypesOf(events)
  {
    if events == [] then []
    else
      assert TypesOf(events) == {events[0].kind} + TypesOf(events[1..]) by {
        assert events == [events[0]] + events[1..];
      }
      Insert(SortedCodes(events[1..]), events[0].kind)
  }

  /** One printed line of the summary: code, label and count. */
  datatype SummaryRow = SummaryRow(code: int, name: string, count: nat)

  /** The rows of the summary: for each code in ascending order, its label and its entry in the counter. */
  function Summary(events: seq<Event>): (rows: seq<SummaryRow>)
    ensures |rows| == |SortedCodes(events)|
  {
    var counts := Tally(events);
    var codes := SortedCodes(events);
    TallyCounts(events);
    seq(|codes|, i requires 0 <= i < |codes| => SummaryRow(codes[i], TypeName(codes[i]), counts[codes[i]]))
  }

  /**
    The summary has one row per distinct type code, in strictly ascending
    order of code; each row carries the code's label and the number of
    events of that type.
   */
  lemma SummaryIsOrderedHistogram(events: seq<Event>)
    ensures var rows := Summary(events);
            && (forall i, j :: 0 <= i < j < |rows| ==> rows[i].code < rows[j].code)
            && (forall t :: t in TypesOf(events) <==> exists i :: 0 <= i < |rows| && rows[i].code == t)
            && (forall i :: 0 <= i < |rows| ==>
                  && rows[i].name == TypeName(rows[i].code)
                  && rows[i].count == CountType(events, rows[i].code) > 0)
  {
    var rows, codes := Summary(events), SortedCodes(events);
    TallyCounts(events);
    assert forall i :: 0 <= i < |rows| ==> rows[i].code == codes[i];
    forall t | t in TypesOf(events) ensures exists i :: 0 <= i < |rows| && rows[i].code == t {
      var i :| 0 <= i < |codes| && codes[i] == t;
      assert rows[i].code == t;
    }
  }

  function TotalCount(rows: seq<SummaryRow>): nat {
    if rows == [] then 0 else rows[0].count + TotalCount(rows[1..])
  }

  function SumCounts(events: seq<Event>, codes: seq<int>): nat {
    if codes == [] then 0 else CountType(events, codes[0]) + SumCounts(events, codes[1..])
  }

  /** How many events have a type among `codes`. */
  function CountIn(events: seq<Event>, codes: seq<int>): nat {
    if events == [] then 0
    else (if events[0].kind in codes then 1 else 0) + CountIn(events[1..], codes)
  }

  lemma {:induction false} CountInCons(events: seq<Event>, c: int, codes: seq<int>)
    requires c !in codes
    ensures CountIn(events, [c] + codes) == CountType(events, c) + CountIn(events, codes)
  {
    if events != [] {
      CountInCons(events[1..], c, codes);
    }
  }

  lemma {:induction false} CountInNothing(events: seq<Event>)
    ensures CountIn(events, []) == 0
  {
    if events != [] {
      CountInNothing(events[1..]);
    }
  }

  lemma {:induction false} SumCountsIsCountIn(events: seq<Event>, codes: seq<int>)
    requires StrictlyAscending(codes)
    ensures SumCounts(events, codes) == CountIn(events, codes)
  {
    if codes == [] {
      CountInNothing(events);
    } else {
      assert StrictlyAscending(codes[1..]) by {
        forall i, j | 0 <= i < j < |codes| - 1 ensures codes[1..][i] < codes[1..][j] {
          assert codes[1..][i] == codes[i + 1] && codes[1..][j] == codes[j + 1];
        }
      }
      SumCountsIsCountIn(events, codes[1..]);
      assert codes[0] !in codes[1..];
      assert codes == [codes[0]] + codes[1..];
      CountInCons(events, codes[0], codes[1..]);
    }
  }

  lemma {:induction false} CountInAll(events: seq<Event>, codes: seq<int>)
    requires forall e :: e in events ==> e.kind in codes
    ensures CountIn(events, codes) == |events|
  {
    if events != [] {
      CountInAll(events[1..], codes);
    }
  }

  lemma {:induction false} TotalOfRows(events: seq<Event>, rows: seq<SummaryRow>, codes: seq<int>)
    requires |rows| == |codes|
    requires forall i :: 0 <= i < |rows| ==> rows[i].count == CountType(events, codes[i])
    ensures TotalCount(rows) == SumCounts(events, codes)
  {
    if rows != [] {
      TotalOfRows(events, rows[1..], codes[1..]);
    }
  }

  /** The counts of the summary add up to the number of events. */
  lemma SummaryTotal(events: seq<Event>)
    ensures TotalCount(Summary(events)) == |events|
  {
    var rows, codes := Summary(events), SortedCodes(events);
    TallyCounts(events);
    assert forall i :: 0 <= i < |rows| ==> rows[i].count == CountType(events, codes[i]);
    TotalOfRows(events, rows, codes);
    SumCountsIsCountIn(events, codes);
    CountInAll(events, codes);
  }
}
