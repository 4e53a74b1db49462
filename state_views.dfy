/** The state views (app.js, lines 43-46, 56-59 and 70-72): pure folds over
    the events an injected `fetch` returns for a type filter. The latest-event
    views sort by timestamp and take the last event; a field read from an
    event of another variant is JavaScript's `undefined`. */
module StateViews {
  import opened Wrappers
  import opened Seqs
  import opened Strings
  import opened Events
  import opened Ordering
  import opened EventStore

  /** A view field: a string, or `undefined`. */
  datatype Field = Text(text: string) | Undefined

  datatype SpaceNameView = SpaceNameView(spaceName: Field, errorMessage: string)

  datatype DateRangeView = DateRangeView(errorMessage: string, startDate: Field, endDate: Field)

  const NoSpaceMessage := "No space has been created yet."
  const NoDateRangeMessage := "Date range not set yet."

  predicate IsOpenSpaceNamed(e: Event) { Type(e) == OpenSpaceNamedTag }
  predicate IsDateRangeSet(e: Event) { Type(e) == DateRangeSetTag }
  predicate IsTopicSubmitted(e: Event) { Type(e) == TopicSubmittedTag }

  function SpaceNameOf(e: Event): Field
  {
    if e.OpenSpaceNamed? then Text(e.spaceName) else Undefined
  }

  function StartDateOf(e: Event): Field
  {
    if e.DateRangeSet? then Text(e.startDate) else Undefined
  }

  function EndDateOf(e: Event): Field
  {
    if e.DateRangeSet? then Text(e.endDate) else Undefined
  }

  /** `OpenSpaceNameSV(eventsFunction)`: the name from the latest fetched
      event, or the "not created" view when the fetch returns nothing. */
  function OpenSpaceNameSV(fetch: (Event -> bool) -> seq<Event>): (v: SpaceNameView)
    ensures var found := fetch(IsOpenSpaceNamed);
      && (found == [] ==> v == SpaceNameView(Text(""), NoSpaceMessage))
      && (found != [] ==> v == SpaceNameView(SpaceNameOf(found[LatestIndex(found)]), ""))
  {
    var found := fetch(IsOpenSpaceNamed);
    match Latest(found)
    case None => SpaceNameView(Text(""), NoSpaceMessage)
    case Some(last) =>
      LatestAtLatestIndex(found);
      SpaceNameView(SpaceNameOf(last), "")
  }

  /** `OpenSpaceDateRangeSV(eventsFunction)`: the dates from the latest
      fetched event, or the "not set" view when the fetch returns nothing. */
  function OpenSpaceDateRangeSV(fetch: (Event -> bool) -> seq<Event>): (v: DateRangeView)
    ensures var found := fetch(IsDateRangeSet);
      && (found == [] ==> v == DateRangeView(NoDateRangeMessage, Text(""), Text("")))
      && (found != [] ==> var last := found[LatestIndex(found)];
            v == DateRangeView("", StartDateOf(last), EndDateOf(last)))
  {
    var found := fetch(IsDateRangeSet);
    match Latest(found)
    case None => DateRangeView(NoDateRangeMessage, Text(""), Text(""))
    case Some(last) =>
      LatestAtLatestIndex(found);
      DateRangeView("", StartDateOf(last), EndDateOf(last))
  }

  /** `SessionsSV(eventsFunction)`: every fetched topic submission, in
      ascending timestamp order. */
  function SessionsSV(fetch: (Event -> bool) -> seq<Event>): (sessions: seq<Event>)
    ensures Ascending(sessions)
    ensures multiset(sessions) == multiset(fetch(IsTopicSubmitted))
    ensures |sessions| == |fetch(IsTopicSubmitted)|
  {
    var sorted := SortByTimestamp(fetch(IsTopicSubmitted));
    assert |multiset(sorted)| == |multiset(fetch(IsTopicSubmitted))|;
    sorted
  }

  /** Submissions that share a timestamp are listed in the order fetched. */
  lemma SessionsStable(fetch: (Event -> bool) -> seq<Event>, t: int)
    ensures Filter(AtTime(t), SessionsSV(fetch)) == Filter(AtTime(t), fetch(IsTopicSubmitted))
  {
    SortStable(fetch(IsTopicSubmitted), t);
  }

  /** The fetch the application passes: `getAllEvents` over a list of
      events. It returns exactly the events that pass the filter. Over the
      events of a store's listing, `EventsOf(Listing(records))`, it is the
      store's `AllEvents`; the lemmas below hold for every list of events,
      and so for that one. */
  function FilteringFetch(events: seq<Event>): (fetch: (Event -> bool) -> seq<Event>)
    ensures forall p: Event -> bool, x :: x in fetch(p) <==> x in events && p(x)
  {
    (p: Event -> bool) => Filter(p, events)
  }

  /** The fetch the built-in tests pass, `() => testEventStream.slice(0, k)`:
      it ignores its filter and returns the first `k` events. */
  function PrefixFetch(events: seq<Event>, k: nat): (fetch: (Event -> bool) -> seq<Event>)
    requires k <= |events|
    ensures forall p: Event -> bool :: fetch(p) == events[..k]
  {
    (p: Event -> bool) => events[..k]
  }

  /** Over the store, the name view is "not created" exactly when no space
      has been named, and otherwise carries a defined name. */
  lemma NameViewOverStore(events: seq<Event>)
    ensures var v := OpenSpaceNameSV(FilteringFetch(events));
      && (v.errorMessage == "" <==> exists i | 0 <= i < |events| :: events[i].OpenSpaceNamed?)
      && v.spaceName.Text?
  {
    var found := Filter(IsOpenSpaceNamed, events);
    if i :| 0 <= i < |events| && events[i].OpenSpaceNamed? {
      assert events[i] in found;
    }
    if found != [] {
      var last := found[LatestIndex(found)];
      assert last in found;
    }
  }

  /** Over the store, the date-range view is "not set" exactly when no range
      has been set, and otherwise carries defined dates. */
  lemma DateRangeViewOverStore(events: seq<Event>)
    ensures var v := OpenSpaceDateRangeSV(FilteringFetch(events));
      && (v.errorMessage == "" <==> exists i | 0 <= i < |events| :: events[i].DateRangeSet?)
      && v.startDate.Text? && v.endDate.Text?
  {
    var found := Filter(IsDateRangeSet, events);
    if i :| 0 <= i < |events| && events[i].DateRangeSet? {
      assert events[i] in found;
    }
    if found != [] {
      var last := found[LatestIndex(found)];
      assert last in found;
    }
  }

  /** Over the store, the sessions are exactly the stored topic submissions,
      each as often as it is stored. */
  lemma SessionsOverStore(events: seq<Event>, e: Event)
    ensures var sessions := SessionsSV(FilteringFetch(events));
      && multiset(sessions)[e] == (if e.TopicSubmitted? then multiset(events)[e] else 0)
      && (forall i | 0 <= i < |sessions| :: sessions[i].TopicSubmitted?)
  {
    var topics := Filter(IsTopicSubmitted, events);
    assert FilteringFetch(events)(IsTopicSubmitted) == topics;
    FilterCount(IsTopicSubmitted, events, e);
    var sessions := SessionsSV(FilteringFetch(events));
    assert multiset(sessions) == multiset(topics);
    forall i | 0 <= i < |sessions| ensures sessions[i].TopicSubmitted? {
      var x := sessions[i];
      assert x in multiset(sessions);
      assert x in topics;
      assert IsTopicSubmitted(x);
    }
  }

  /** An event whose timestamp is not below any other is the latest. */
  lemma NewestIsLatest(s: seq<Event>)
    requires s != []
    requires forall j | 0 <= j < |s| :: s[j].timestamp <= s[|s| - 1].timestamp
    ensures LatestIndex(s) == |s| - 1
  {
    LastMaximalUnique(s, LatestIndex(s), |s| - 1);
  }

  /** For events with strictly increasing timestamps, the view over the first
      `k` of them names the `k`-th, and over none of them is "not created". */
  lemma IncreasingPrefixName(s: seq<Event>, k: nat)
    requires forall i | 0 <= i < |s| :: s[i].OpenSpaceNamed?
    requires forall i, j | 0 <= i < j < |s| :: s[i].timestamp < s[j].timestamp
    requires k <= |s|
    ensures k == 0 ==> OpenSpaceNameSV(PrefixFetch(s, k)) == SpaceNameView(Text(""), NoSpaceMessage)
    ensures k > 0 ==> OpenSpaceNameSV(PrefixFetch(s, k)) == SpaceNameView(Text(s[k - 1].spaceName), "")
  {
    if k > 0 {
      NewestIsLatest(s[..k]);
    }
  }

  /** The fixture of the built-in tests: three spaces named on consecutive
      days (timestamps in milliseconds since the epoch). */
  function TestEventStream(): seq<Event>
  {
    [ OpenSpaceNamed("Test1", 1714521600000, "1ceee960-2f9f-47b0-ad19-fed15d4f82cb"),
      OpenSpaceNamed("Test2", 1714608000000, "2ceee960-2f9f-47b0-ad19-fed15d4f82cb"),
      OpenSpaceNamed("Test3", 1714694400000, "3ceee960-2f9f-47b0-ad19-fed15d4f82cb") ]
  }

  /** The fixture names a space three times, on strictly later days. */
  lemma TestEventStreamIncreasing()
    ensures forall i | 0 <= i < |TestEventStream()| :: TestEventStream()[i].OpenSpaceNamed?
    ensures forall i, j | 0 <= i < j < |TestEventStream()| :: TestEventStream()[i].timestamp < TestEventStream()[j].timestamp
  {
    var s := TestEventStream();
    assert s[0].timestamp < s[1].timestamp < s[2].timestamp;
  }

  /** The four built-in tests of `OpenSpaceNameSV`. */
  lemma BuiltInTests()
    ensures OpenSpaceNameSV(PrefixFetch(TestEventStream(), 0)) == SpaceNameView(Text(""), "No space has been created yet.")
    ensures OpenSpaceNameSV(PrefixFetch(TestEventStream(), 1)) == SpaceNameView(Text("Test1"), "")
    ensures OpenSpaceNameSV(PrefixFetch(TestEventStream(), 2)) == SpaceNameView(Text("Test2"), "")
    ensures OpenSpaceNameSV(PrefixFetch(TestEventStream(), 3)) == SpaceNameView(Text("Test3"), "")
  {
    var s := TestEventStream();
    TestEventStreamIncreasing();
    IncreasingPrefixName(s, 0);
    IncreasingPrefixName(s, 1);
    IncreasingPrefixName(s, 2);
    IncreasingPrefixName(s, 3);
  }

  /** Every stored event that passes `p` is older than `e`, or as old and
      stored under a file name that sorts before the name `e` is written
      under. */
  predicate Supersedes(render: int -> string, records: seq<Record>, e: Event, p: Event -> bool)
  {
    forall i | 0 <= i < |records| && p(records[i].event) ::
      || records[i].event.timestamp < e.timestamp
      || (records[i].event.timestamp == e.timestamp && !LexLe(NameOf(render, e), records[i].name))
  }

  /** An event fetched from some of the files comes from one of them. */
  lemma FetchedFrom(files: seq<Record>, p: Event -> bool, x: Event)
    requires x in Filter(p, EventsOf(files))
    ensures p(x) && exists m | 0 <= m < |files| :: files[m].event == x
  {
  }

  /** An event inserted among others is the latest when none before it is
      later and all after it are earlier. */
  lemma InsertedIsLatest(front: seq<Event>, e: Event, back: seq<Event>)
    requires forall x | x in front :: x.timestamp <= e.timestamp
    requires forall x | x in back :: x.timestamp < e.timestamp
    ensures var found := front + [e] + back;
      found[LatestIndex(found)] == e
  {
    var found := front + [e] + back;
    forall j | 0 <= j < |found|
      ensures found[j].timestamp <= e.timestamp
      ensures j > |front| ==> found[j].timestamp < e.timestamp
    {
      if j < |front| {
        assert found[j] == front[j];
      } else if j > |front| {
        assert found[j] == back[j - |front| - 1];
      }
    }
    assert LastMaximal(found, |front|);
    LastMaximalUnique(found, LatestIndex(found), |front|);
  }

  /** An inserted event is not the latest when some event is later, or when
      an event after it is as late and differs from it. */
  lemma InsertedNotLatest(front: seq<Event>, e: Event, back: seq<Event>, x: Event)
    requires e !in back
    requires (x in front + back && x.timestamp > e.timestamp) || (x in back && x.timestamp >= e.timestamp)
    ensures var found := front + [e] + back;
      found[LatestIndex(found)] != e
  {
    var found := front + [e] + back;
    var at := LatestIndex(found);
    assert x in found;
    if x in back && x.timestamp == e.timestamp && found[at].timestamp == e.timestamp {
      var b :| 0 <= b < |back| && back[b] == x;
      var q := |front| + 1 + b;
      assert found[q] == x;
      assert q <= at;
      assert found[at] == back[at - |front| - 1];
    }
  }

  /** When `e` supersedes the store, the events of the files listed before
      its position are not later, and those of the files after it are
      earlier. */
  lemma SupersededSlices(render: int -> string, records: seq<Record>, listing: seq<Record>, k: nat, e: Event, p: Event -> bool)
    requires forall r :: r in listing <==> r in records
    requires k <= |listing|
    requires forall j | k <= j < |listing| :: LexLe(NameOf(render, e), listing[j].name)
    requires Supersedes(render, records, e, p)
    ensures forall x | x in Filter(p, EventsOf(listing[..k])) :: x.timestamp <= e.timestamp
    ensures forall x | x in Filter(p, EventsOf(listing[k..])) :: x.timestamp < e.timestamp
  {
    forall x | x in Filter(p, EventsOf(listing[..k])) ensures x.timestamp <= e.timestamp {
      FetchedFrom(listing[..k], p, x);
      var m :| 0 <= m < k && listing[..k][m].event == x;
      assert listing[m] in records;
    }
    forall x | x in Filter(p, EventsOf(listing[k..])) ensures x.timestamp < e.timestamp {
      FetchedFrom(listing[k..], p, x);
      var m :| 0 <= m < |listing| - k && listing[k..][m].event == x;
      assert LexLe(NameOf(render, e), listing[k + m].name);
      assert listing[k + m] in records;
    }
  }

  /** A listed file whose event passes, is later than `e`, or is as late
      and named at or after `name`, is fetched at a place that makes it win
      over `e` inserted at `name`'s position `k`. */
  lemma LaterListed(listing: seq<Record>, k: nat, name: string, e: Event, p: Event -> bool, r: Record)
    requires k <= |listing|
    requires forall j | 0 <= j < k :: !LexLe(name, listing[j].name)
    requires r in listing && p(r.event) && r.event.timestamp >= e.timestamp
    requires r.event.timestamp == e.timestamp ==> LexLe(name, r.name)
    ensures var front, back, x := Filter(p, EventsOf(listing[..k])), Filter(p, EventsOf(listing[k..])), r.event;
      (x in front + back && x.timestamp > e.timestamp) || (x in back && x.timestamp >= e.timestamp)
  {
    var front, back, x := Filter(p, EventsOf(listing[..k])), Filter(p, EventsOf(listing[k..])), r.event;
    var m :| 0 <= m < |listing| && listing[m] == r;
    if m < k {
      assert !LexLe(name, r.name);
      assert x in front by {
        assert EventsOf(listing[..k])[m] == x;
      }
      assert x in front + back;
    } else {
      assert x in back by {
        assert EventsOf(listing[k..])[m - k] == x;
      }
    }
  }

  /** In a consistent store, an event whose id no file name contains is not
      stored. */
  lemma NotStored(render: int -> string, records: seq<Record>, e: Event)
    requires Consistent(render, records) && !IdTaken(records, e.id)
    ensures forall i | 0 <= i < |records| :: records[i].event != e
  {
    forall i | 0 <= i < |records| ensures records[i].event != e {
      assert Contains(records[i].name, records[i].event.id);
    }
  }

  /** Nor is such an event fetched from any part of the listing. */
  lemma NotFetched(render: int -> string, records: seq<Record>, listing: seq<Record>, k: nat, e: Event, p: Event -> bool)
    requires Consistent(render, records) && !IdTaken(records, e.id)
    requires forall r :: r in listing <==> r in records
    requires k <= |listing|
    ensures e !in Filter(p, EventsOf(listing[k..]))
  {
    if e in Filter(p, EventsOf(listing[k..])) {
      FetchedFrom(listing[k..], p, e);
      var m :| 0 <= m < |listing| - k && listing[k..][m].event == e;
      assert listing[k + m] in records;
      NotStored(render, records, e);
    }
  }

  /** When `e` does not supersede the store, `e` inserted at its name's
      position is not the latest event fetched. */
  lemma UnsupersededLoses(render: int -> string, records: seq<Record>, listing: seq<Record>, k: nat, e: Event, p: Event -> bool)
    requires forall r :: r in listing <==> r in records
    requires k <= |listing|
    requires forall j | 0 <= j < k :: !LexLe(NameOf(render, e), listing[j].name)
    requires e !in Filter(p, EventsOf(listing[k..]))
    requires !Supersedes(render, records, e, p)
    ensures var found := Filter(p, EventsOf(listing[..k])) + [e] + Filter(p, EventsOf(listing[k..]));
      found[LatestIndex(found)] != e
  {
    var i :| 0 <= i < |records| && p(records[i].event)
      && records[i].event.timestamp >= e.timestamp
      && (records[i].event.timestamp == e.timestamp ==> LexLe(NameOf(render, e), records[i].name));
    assert records[i] in listing;
    LaterListed(listing, k, NameOf(render, e), e, p, records[i]);
    InsertedNotLatest(Filter(p, EventsOf(listing[..k])), e, Filter(p, EventsOf(listing[k..])), records[i].event);
  }

  /** Writing `e` and then fetching with a filter `e` passes: the latest
      event fetched is `e` exactly when every stored event that passes is
      older, or as old but stored under a name that the listing puts before
      the new file. On a tie with a file listed after it, the stored event
      is the one selected. */
  lemma WrittenIsLatest(render: int -> string, records: seq<Record>, e: Event, p: Event -> bool)
    requires Consistent(render, records)
    requires p(e) && !IdTaken(records, e.id)
    ensures var found := FilteringFetch(EventsOf(Listing(Appended(render, records, e))))(p);
      && found != []
      && (found[LatestIndex(found)] == e <==> Supersedes(render, records, e, p))
  {
    var listing := Listing(records);
    var k := NamePosition(listing, NameOf(render, e));
    var front, back := Filter(p, EventsOf(listing[..k])), Filter(p, EventsOf(listing[k..]));
    assert FilteringFetch(EventsOf(Listing(Appended(render, records, e))))(p) == front + [e] + back by {
      AppendedThenRead(render, records, e, p);
    }
    if Supersedes(render, records, e, p) {
      SupersededSlices(render, records, listing, k, e, p);
      InsertedIsLatest(front, e, back);
    } else {
      NotFetched(render, records, listing, k, e, p);
      UnsupersededLoses(render, records, listing, k, e, p);
    }
  }

  /** Naming the space and then reading the view (the POST handler of
      /create_space): when the new naming event supersedes every stored one,
      the view shows its name. */
  lemma NameAfterWrite(render: int -> string, records: seq<Record>, e: Event)
    requires Consistent(render, records)
    requires e.OpenSpaceNamed? && !IdTaken(records, e.id)
    ensures Supersedes(render, records, e, IsOpenSpaceNamed) ==>
      OpenSpaceNameSV(FilteringFetch(EventsOf(Listing(Appended(render, records, e)))))
        == SpaceNameView(Text(e.spaceName), "")
  {
    WrittenIsLatest(render, records, e, IsOpenSpaceNamed);
  }

  /** Setting the dates and then reading the view (the POST handler of
      /set_dates): when the new event supersedes every stored one, the view
      shows its dates. */
  lemma DateRangeAfterWrite(render: int -> string, records: seq<Record>, e: Event)
    requires Consistent(render, records)
    requires e.DateRangeSet? && !IdTaken(records, e.id)
    ensures Supersedes(render, records, e, IsDateRangeSet) ==>
      OpenSpaceDateRangeSV(FilteringFetch(EventsOf(Listing(Appended(render, records, e)))))
        == DateRangeView("", Text(e.startDate), Text(e.endDate))
  {
    WrittenIsLatest(render, records, e, IsDateRangeSet);
  }

  /** When every fetched event is a topic submission, the sessions are the
      fetched events sorted. */
  lemma SessionsOfTopics(events: seq<Event>)
    requires forall i | 0 <= i < |events| :: events[i].TopicSubmitted?
    ensures SessionsSV(FilteringFetch(events)) == SortByTimestamp(events)
  {
    FilterAll(IsTopicSubmitted, events);
  }

  /** The sessions of two fetched topic submissions. */
  lemma SessionsOfTwo(a: Event, b: Event)
    requires a.TopicSubmitted? && b.TopicSubmitted?
    ensures SessionsSV(FilteringFetch([a, b])) == SortByTimestamp([a, b])
  {
    var ab := [a, b];
    assert ab[0] == a && ab[1] == b;
    SessionsOfTopics(ab);
  }

  /** Two topics submitted one after the other are listed in submission
      order, whichever order the directory lists them in. */
  lemma SessionsInSubmissionOrder(a: Event, b: Event)
    requires a.TopicSubmitted? && b.TopicSubmitted? && a.timestamp < b.timestamp
    ensures SessionsSV(FilteringFetch([a, b])) == [a, b]
    ensures SessionsSV(FilteringFetch([b, a])) == [a, b]
  {
    SessionsOfTwo(a, b);
    SessionsOfTwo(b, a);
    SortPair(a, b);
  }
}
