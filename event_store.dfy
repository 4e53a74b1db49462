/** The append-only, idempotent event store (app.js, lines 24-29). The store
    directory holds one file per event; each record is a file name and the
    event decoded from that file. `records` keeps the files in the order they
    were written, and every read goes through `Listing`, the order in which
    `fs.readdirSync` returns the names. */
module EventStore {
  import opened Wrappers
  import opened Seqs
  import opened Strings
  import opened Events
  import opened RecordNames

  datatype Record = Record(name: string, event: Event)

  /** The file name an event is written under. `render` is the text the
      timestamp is serialised as (`Date.prototype.toISOString`). The name
      contains the event's id. */
  function NameOf(render: int -> string, e: Event): (name: string)
    ensures Contains(name, e.id)
  {
    RecordName(render(e.timestamp), e.id, Type(e))
  }

  /** The file name of an event also contains its type tag, which is what
      `getLastEvent` looks for, and ends with "Event.json". */
  lemma NameOfParts(render: int -> string, e: Event)
    ensures var name := NameOf(render, e);
      Contains(name, Type(e)) && |name| >= 10 && name[|name| - 10..] == "Event.json"
  {
    EventJsonSuffix(NameOf(render, e), Type(e));
  }

  /** A name ending with a tag that ends in "Event", then ".json", ends with
      "Event.json". */
  lemma EventJsonSuffix(name: string, tag: string)
    requires |tag| >= 5 && tag[|tag| - 5..] == "Event"
    requires |name| >= |tag| + 5 && name[|name| - |tag| - 5..] == tag + ".json"
    ensures name[|name| - 10..] == "Event.json"
  {
    var tail := tag + ".json";
    assert name[|name| - 10..] == tail[|tail| - 10..];
    assert tail[|tail| - 10..] == tag[|tag| - 5..] + ".json";
  }

  /** The names of the files. */
  function Names(records: seq<Record>): (names: seq<string>)
    ensures |names| == |records|
    ensures forall i | 0 <= i < |records| :: names[i] == records[i].name
    ensures forall n :: n in names <==> exists i | 0 <= i < |records| :: records[i].name == n
  {
    seq(|records|, i requires 0 <= i < |records| => records[i].name)
  }

  /** Every file decoded (`JSON.parse` of its contents). */
  function EventsOf(records: seq<Record>): (events: seq<Event>)
    ensures |events| == |records|
    ensures forall i | 0 <= i < |records| :: events[i] == records[i].event
    ensures forall e :: e in events <==> exists i | 0 <= i < |records| :: records[i].event == e
  {
    seq(|records|, i requires 0 <= i < |records| => records[i].event)
  }

  lemma EventsOfConcat(a: seq<Record>, b: seq<Record>)
    ensures EventsOf(a + b) == EventsOf(a) + EventsOf(b)
  {
  }

  lemma NamesConcat(a: seq<Record>, b: seq<Record>)
    ensures Names(a + b) == Names(a) + Names(b)
  {
  }

  /** The files are in ascending order of name. */
  predicate ByName(listing: seq<Record>)
  {
    forall i, j | 0 <= i < j < |listing| :: LexLe(listing[i].name, listing[j].name)
  }

  /** Where a file called `name` goes in a listing in name order: after every
      file whose name sorts before it, ahead of all the others. */
  function NamePosition(listing: seq<Record>, name: string): (k: nat)
    requires ByName(listing)
    ensures k <= |listing|
    ensures forall j | 0 <= j < k :: !LexLe(name, listing[j].name)
    ensures forall j | k <= j < |listing| :: LexLe(name, listing[j].name)
    decreases |listing|
  {
    if listing == [] then 0
    else if LexLe(name, listing[0].name) then
      AboveFirst(listing, name);
      0
    else 1 + NamePosition(listing[1..], name)
  }

  /** A name that sorts before the first file sorts before all of them. */
  lemma AboveFirst(listing: seq<Record>, name: string)
    requires ByName(listing) && listing != []
    requires LexLe(name, listing[0].name)
    ensures forall j | 0 <= j < |listing| :: LexLe(name, listing[j].name)
  {
    forall j | 0 <= j < |listing| ensures LexLe(name, listing[j].name) {
      if j > 0 {
        LexLeTransitive(name, listing[0].name, listing[j].name);
      }
    }
  }

  /** Putting a file at its position keeps a listing in name order. */
  lemma InsertByName(listing: seq<Record>, r: Record)
    requires ByName(listing)
    ensures var k := NamePosition(listing, r.name);
      ByName(listing[..k] + [r] + listing[k..])
  {
    var k := NamePosition(listing, r.name);
    var out := listing[..k] + [r] + listing[k..];
    forall i, j | 0 <= i < j < |out| ensures LexLe(out[i].name, out[j].name) {
      if j < k {
        assert out[i] == listing[i] && out[j] == listing[j];
      } else if j == k {
        assert out[i] == listing[i];
        LexLeTotal(r.name, listing[i].name);
      } else if i == k {
        assert out[j] == listing[j - 1];
      } else if i < k {
        assert out[i] == listing[i] && out[j] == listing[j - 1];
      } else {
        assert out[i] == listing[i - 1] && out[j] == listing[j - 1];
      }
    }
  }

  /** `fs.readdirSync(EVENT_STORE_PATH)`: the files in ascending order of
      name, each exactly once. Node sorts the entries with `strcmp`, which on
      UTF-8 names is the order of their characters' code points. */
  function Listing(records: seq<Record>): (listing: seq<Record>)
    ensures ByName(listing)
    ensures multiset(listing) == multiset(records)
    ensures |listing| == |records|
    ensures forall r :: r in listing <==> r in records
    decreases |records|
  {
    if records == [] then []
    else
      var init, last := records[..|records| - 1], records[|records| - 1];
      assert records == init + [last];
      var sorted := Listing(init);
      var k := NamePosition(sorted, last.name);
      InsertByName(sorted, last);
      assert sorted == sorted[..k] + sorted[k..];
      sorted[..k] + [last] + sorted[k..]
  }

  /** The listing holds every stored event exactly as often as the store. */
  lemma {:induction false} ListingEvents(records: seq<Record>)
    ensures multiset(EventsOf(Listing(records))) == multiset(EventsOf(records))
    decreases |records|
  {
    if records != [] {
      var init, last := records[..|records| - 1], records[|records| - 1];
      assert records == init + [last];
      var sorted := Listing(init);
      var k := NamePosition(sorted, last.name);
      assert Listing(records) == sorted[..k] + [last] + sorted[k..];
      assert sorted == sorted[..k] + sorted[k..];
      EventsOfAround(sorted[..k], last, sorted[k..]);
      EventsOfConcat(init, [last]);
      assert EventsOf([last]) == [last.event];
      ListingEvents(init);
      assert multiset(EventsOf(Listing(records))) == multiset(EventsOf(sorted)) + multiset{last.event};
      assert multiset(EventsOf(records)) == multiset(EventsOf(init)) + multiset{last.event};
    }
  }

  lemma EventsOfAround(front: seq<Record>, r: Record, back: seq<Record>)
    ensures multiset(EventsOf(front + [r] + back)) == multiset(EventsOf(front + back)) + multiset{r.event}
  {
    EventsOfConcat(front + [r], back);
    EventsOfConcat(front, [r]);
    EventsOfConcat(front, back);
    assert EventsOf([r]) == [r.event];
  }

  /** The listing holds every stored name exactly as often as the store. */
  lemma {:induction false} ListingNames(records: seq<Record>)
    ensures multiset(Names(Listing(records))) == multiset(Names(records))
    decreases |records|
  {
    if records != [] {
      var init, last := records[..|records| - 1], records[|records| - 1];
      assert records == init + [last];
      var sorted := Listing(init);
      var k := NamePosition(sorted, last.name);
      assert Listing(records) == sorted[..k] + [last] + sorted[k..];
      assert sorted == sorted[..k] + sorted[k..];
      NamesAround(sorted[..k], last, sorted[k..]);
      NamesConcat(init, [last]);
      assert Names([last]) == [last.name];
      ListingNames(init);
      assert multiset(Names(Listing(records))) == multiset(Names(sorted)) + multiset{last.name};
      assert multiset(Names(records)) == multiset(Names(init)) + multiset{last.name};
    }
  }

  lemma NamesAround(front: seq<Record>, r: Record, back: seq<Record>)
    ensures multiset(Names(front + [r] + back)) == multiset(Names(front + back)) + multiset{r.name}
  {
    NamesConcat(front + [r], back);
    NamesConcat(front, [r]);
    NamesConcat(front, back);
    assert Names([r]) == [r.name];
  }

  /** In a consistent store, every listed file is named after its event. */
  lemma ListedNamedAfterEvents(render: int -> string, records: seq<Record>)
    requires Consistent(render, records)
    ensures forall r | r in Listing(records) :: r.name == NameOf(render, r.event)
  {
    forall r | r in Listing(records) ensures r.name == NameOf(render, r.event) {
      var i :| 0 <= i < |records| && records[i] == r;
    }
  }

  /** The file-name filter `file => file.includes(sub)`. */
  function Mentioning(sub: string): string -> bool
  {
    name => Contains(name, sub)
  }

  /** The record filter `record => record.name.includes(sub)`. */
  function NameMentioning(sub: string): Record -> bool
  {
    (record: Record) => Contains(record.name, sub)
  }

  /** Some file name passes the filter `file => file.includes(sub)` exactly
      when some record's name contains `sub`, and then so does some record. */
  lemma MentioningHits(records: seq<Record>, sub: string)
    ensures var found := exists i | 0 <= i < |records| :: Contains(records[i].name, sub);
      && (|Filter(Mentioning(sub), Names(records))| != 0 <==> found)
      && (|Filter(NameMentioning(sub), records)| != 0 <==> found)
  {
    var hits := Filter(Mentioning(sub), Names(records));
    var matching := Filter(NameMentioning(sub), records);
    if i :| 0 <= i < |records| && Contains(records[i].name, sub) {
      assert Names(records)[i] in Names(records) && Mentioning(sub)(records[i].name);
      assert records[i].name in hits;
      assert records[i] in records && NameMentioning(sub)(records[i]);
      assert records[i] in matching;
    }
    if |hits| != 0 {
      assert hits[0] in hits;
      var k :| 0 <= k < |records| && Names(records)[k] == hits[0];
      assert Contains(records[k].name, sub);
    }
    if |matching| != 0 {
      assert matching[0] in matching;
      var k :| 0 <= k < |records| && records[k] == matching[0];
      assert Contains(records[k].name, sub);
    }
  }

  /** The scan before a write: some file name already contains `id`. */
  function IdTaken(records: seq<Record>, id: string): (taken: bool)
    ensures taken <==> exists i | 0 <= i < |records| :: Contains(records[i].name, id)
  {
    MentioningHits(records, id);
    |Filter(Mentioning(id), Names(records))| != 0
  }

  /** The store after `writeEventIfIdNotExists(e)`. */
  function Appended(render: int -> string, records: seq<Record>, e: Event): (r: seq<Record>)
    ensures |r| == |records| + (if IdTaken(records, e.id) then 0 else 1)
    ensures r[..|records|] == records
    ensures |r| > |records| ==> r[|records|] == Record(NameOf(render, e), e)
  {
    if IdTaken(records, e.id) then records else records + [Record(NameOf(render, e), e)]
  }

  /** What every store built by appends satisfies: each file is named after
      its event, and no file name contains the id of a later event. */
  ghost predicate Consistent(render: int -> string, records: seq<Record>)
  {
    && (forall i | 0 <= i < |records| :: records[i].name == NameOf(render, records[i].event))
    && (forall i, j | 0 <= i < j < |records| :: !Contains(records[i].name, records[j].event.id))
  }

  /** Appending keeps a store consistent. */
  lemma AppendedConsistent(render: int -> string, records: seq<Record>, e: Event)
    requires Consistent(render, records)
    ensures Consistent(render, Appended(render, records, e))
  {
    if !IdTaken(records, e.id) {
      SnocConsistent(render, records, Record(NameOf(render, e), e));
    }
  }

  /** A record named after its event, whose id no stored name contains,
      extends a consistent store to a consistent one. */
  lemma SnocConsistent(render: int -> string, records: seq<Record>, last: Record)
    requires Consistent(render, records)
    requires last.name == NameOf(render, last.event)
    requires forall i | 0 <= i < |records| :: !Contains(records[i].name, last.event.id)
    ensures Consistent(render, records + [last])
  {
    var r := records + [last];
    forall i | 0 <= i < |r| ensures r[i].name == NameOf(render, r[i].event) {
      if i < |records| {
        assert r[i] == records[i];
      }
    }
    forall i, j | 0 <= i < j < |r| ensures !Contains(r[i].name, r[j].event.id) {
      assert r[i] == records[i];
      if j < |records| {
        assert r[j] == records[j];
      }
    }
  }

  /** Writing the same event twice has the effect of writing it once. */
  lemma AppendedIdempotent(render: int -> string, records: seq<Record>, e: Event)
    ensures Appended(render, Appended(render, records, e), e) == Appended(render, records, e)
  {
    var once := Appended(render, records, e);
    if !IdTaken(records, e.id) {
      assert Contains(once[|records|].name, e.id);
    }
  }

  /** In a consistent store no two files hold events with the same id, and no
      two files have the same name. */
  lemma ConsistentUnique(render: int -> string, records: seq<Record>, i: nat, j: nat)
    requires Consistent(render, records)
    requires i < j < |records|
    ensures records[i].event.id != records[j].event.id
    ensures records[i].name != records[j].name
  {
    assert Contains(records[i].name, records[i].event.id);
    assert Contains(records[j].name, records[j].event.id);
  }

  /** Reading back after a write. A skipped write changes no listing. A
      write that happens puts the new file at its name's position in the
      listing, so a read that selects the new event returns it after the
      events of the files named before it and ahead of all the others, which
      come in the same order as before. */
  lemma AppendedThenRead(render: int -> string, records: seq<Record>, e: Event, p: Event -> bool)
    ensures IdTaken(records, e.id) ==> Listing(Appended(render, records, e)) == Listing(records)
    ensures !IdTaken(records, e.id) ==>
      var listing := Listing(records);
      var k := NamePosition(listing, NameOf(render, e));
      var front, back := Filter(p, EventsOf(listing[..k])), Filter(p, EventsOf(listing[k..]));
      && Filter(p, EventsOf(listing)) == front + back
      && Filter(p, EventsOf(Listing(Appended(render, records, e)))) == front + (if p(e) then [e] else []) + back
  {
    if !IdTaken(records, e.id) {
      var r := Record(NameOf(render, e), e);
      var appended := records + [r];
      assert appended[..|records|] == records;
      ReadAround(Listing(records), NamePosition(Listing(records), r.name), r, p);
    }
  }

  /** Reading a listing with one more file at position `k`. */
  lemma ReadAround(listing: seq<Record>, k: nat, r: Record, p: Event -> bool)
    requires k <= |listing|
    ensures var front, back := Filter(p, EventsOf(listing[..k])), Filter(p, EventsOf(listing[k..]));
      && Filter(p, EventsOf(listing)) == front + back
      && Filter(p, EventsOf(listing[..k] + [r] + listing[k..])) == front + (if p(r.event) then [r.event] else []) + back
  {
    assert EventsOf([r]) == [r.event];
    EventsOfConcat(listing[..k] + [r], listing[k..]);
    EventsOfConcat(listing[..k], [r]);
    EventsOfConcat(listing[..k], listing[k..]);
    assert listing == listing[..k] + listing[k..];
    FilterConcat(p, EventsOf(listing[..k]) + [r.event], EventsOf(listing[k..]));
    FilterSnoc(p, EventsOf(listing[..k]), r.event);
    FilterConcat(p, EventsOf(listing[..k]), EventsOf(listing[k..]));
  }

  /** The scan is a substring test on file names, not a comparison of ids:
      every file name ends with "Event.json", so once the store holds a file,
      no event whose id occurs in that suffix (such as "json", "Event" or the
      empty id) is ever written, whatever ids the stored events have. */
  lemma SubstringOfNameBlocksWrite(render: int -> string, records: seq<Record>, e: Event)
    requires Consistent(render, records) && records != []
    requires Contains("Event.json", e.id)
    ensures Appended(render, records, e) == records
  {
    var name := records[0].name;
    assert name == NameOf(render, records[0].event);
    NameOfParts(render, records[0].event);
    ContainsInSuffix(name, "Event.json", e.id);
    assert Contains(records[0].name, e.id);
  }

  /** The greatest record by file name; later records win ties. */
  function GreatestByName(records: seq<Record>): (r: Record)
    requires records != []
    ensures r in records
    ensures forall x | x in records :: LexLe(x.name, r.name)
    decreases |records|
  {
    var last := records[|records| - 1];
    if |records| == 1 then
      LexLeReflexive(last.name);
      last
    else
      var init := records[..|records| - 1];
      assert records == init + [last];
      var best := GreatestByName(init);
      LexLeTotal(best.name, last.name);
      if LexLe(best.name, last.name) then
        forall x | x in init ensures LexLe(x.name, last.name) {
          LexLeTransitive(x.name, best.name, last.name);
        }
        LexLeReflexive(last.name);
        last
      else
        best
  }

  /** The greatest record among the listed files whose name contains `tag`
      is a stored record, and no other name containing `tag` is greater. */
  lemma GreatestMentioning(records: seq<Record>, listing: seq<Record>, tag: string)
    requires forall r :: r in listing <==> r in records
    requires Filter(NameMentioning(tag), listing) != []
    ensures var best := GreatestByName(Filter(NameMentioning(tag), listing));
      exists i | 0 <= i < |records| ::
        && records[i] == best
        && Contains(records[i].name, tag)
        && forall j | 0 <= j < |records| && Contains(records[j].name, tag) :: LexLe(records[j].name, best.name)
  {
    var candidates := Filter(NameMentioning(tag), listing);
    var best := GreatestByName(candidates);
    assert best in listing && NameMentioning(tag)(best);
    forall j | 0 <= j < |records| && Contains(records[j].name, tag) ensures LexLe(records[j].name, best.name) {
      assert records[j] in listing && NameMentioning(tag)(records[j]);
      assert records[j] in candidates;
    }
    var i :| 0 <= i < |records| && records[i] == best;
  }

  /** When some stored name contains `tag`, so does some listed name. */
  lemma MentioningListed(records: seq<Record>, tag: string, i: nat)
    requires i < |records| && Contains(records[i].name, tag)
    ensures Filter(NameMentioning(tag), Listing(records)) != []
  {
    assert records[i] in Listing(records) && NameMentioning(tag)(records[i]);
  }

  /** The names `getAllEventFileNames(file => file.includes(tag))` returns
      are empty exactly when no stored name contains `tag`, and otherwise
      some listed file's name contains it. */
  lemma MentioningNames(records: seq<Record>, tag: string, names: seq<string>)
    requires forall n :: n in names <==> Mentioning(tag)(n) && exists i | 0 <= i < |records| :: records[i].name == n
    ensures |names| == 0 <==> forall i | 0 <= i < |records| :: !Contains(records[i].name, tag)
    ensures |names| != 0 ==> Filter(NameMentioning(tag), Listing(records)) != []
  {
    if i :| 0 <= i < |records| && Contains(records[i].name, tag) {
      assert records[i].name in names;
      MentioningListed(records, tag, i);
    }
    if |names| != 0 {
      assert names[0] in names;
    }
  }

  class EventStore {
    /** How a timestamp is written as text in a file name. */
    const render: int -> string
    /** The files of the store directory, in the order they were written. */
    var records: seq<Record>

    ghost predicate Valid()
      reads this
    {
      Consistent(render, records)
    }

    /** An empty store directory. */
    constructor (render: int -> string)
      ensures Valid()
      ensures this.render == render && records == []
    {
      this.render := render;
      records := [];
    }

    /** `getAllEventFileNames(filterFunction)`: the file names that pass the
        filter, in ascending order. */
    function AllEventFileNames(keep: string -> bool): (names: seq<string>)
      reads this
      ensures |names| <= |records|
      ensures forall n :: n in names <==> keep(n) && exists i | 0 <= i < |records| :: records[i].name == n
      ensures forall i, j | 0 <= i < j < |names| :: LexLe(names[i], names[j])
    {
      var listing := Listing(records);
      var all := Names(listing);
      assert forall n :: n in all <==> exists i | 0 <= i < |records| :: records[i].name == n by {
        forall n ensures n in all <==> exists i | 0 <= i < |records| :: records[i].name == n {
          if i :| 0 <= i < |records| && records[i].name == n {
            assert records[i] in listing;
          }
          if n in all {
            var m :| 0 <= m < |listing| && listing[m].name == n;
            assert listing[m] in records;
          }
        }
      }
      var le := (a: string, b: string) => LexLe(a, b);
      assert forall i, j | 0 <= i < j < |all| :: le(all[i], all[j]);
      FilterKeepsOrder(keep, all, le);
      var names := Filter(keep, all);
      assert forall i, j | 0 <= i < j < |names| :: le(names[i], names[j]);
      names
    }

    /** `writeEventIfIdNotExists(event)`: writes `e` as a new file unless some
        file name already contains its id; all earlier files stay as they are. */
    method WriteEventIfIdNotExists(e: Event)
      requires Valid()
      modifies this
      ensures Valid()
      ensures records == Appended(render, old(records), e)
    {
      var names := AllEventFileNames(Mentioning(e.id));
      assert |names| != 0 <==> IdTaken(records, e.id) by {
        if i :| 0 <= i < |records| && Contains(records[i].name, e.id) {
          assert records[i].name in names;
        }
        if |names| != 0 {
          assert names[0] in names;
        }
      }
      if |names| == 0 {
        records := records + [Record(NameOf(render, e), e)];
      }
      AppendedConsistent(render, old(records), e);
    }

    /** `getAllEvents(filterFunction)`: every decoded event that passes the
        filter, in the order of the listing. */
    function AllEvents(p: Event -> bool): (events: seq<Event>)
      reads this
      ensures |events| <= |records|
      ensures forall e :: e in events <==> p(e) && exists i | 0 <= i < |records| :: records[i].event == e
    {
      var listing := Listing(records);
      var all := EventsOf(listing);
      assert forall e :: e in all <==> exists i | 0 <= i < |records| :: records[i].event == e by {
        forall e ensures e in all <==> exists i | 0 <= i < |records| :: records[i].event == e {
          if i :| 0 <= i < |records| && records[i].event == e {
            assert records[i] in listing;
          }
          if e in all {
            var m :| 0 <= m < |listing| && listing[m].event == e;
            assert listing[m] in records;
          }
        }
      }
      Filter(p, all)
    }

    /** `getLastEvent(eventType)`: the event in the file with the
        lexicographically greatest name among those containing `tag`, or
        `None` when no file name contains it. */
    function LastEvent(tag: string): (r: Option<Event>)
      reads this
      ensures r.None? <==> forall i | 0 <= i < |records| :: !Contains(records[i].name, tag)
      ensures r.Some? ==> exists i | 0 <= i < |records| ::
        && Contains(records[i].name, tag)
        && records[i].event == r.value
        && forall j | 0 <= j < |records| && Contains(records[j].name, tag) :: LexLe(records[j].name, records[i].name)
    {
      var names := AllEventFileNames(Mentioning(tag));
      MentioningNames(records, tag, names);
      if |names| == 0 then None
      else
        var best := GreatestByName(Filter(NameMentioning(tag), Listing(records)));
        GreatestMentioning(records, Listing(records), tag);
        Some(best.event)
    }
  }

  /** `getAllEvents` returns each stored event that passes the filter exactly
      as many times as it is stored, and no other event. */
  lemma AllEventsCounts(store: EventStore, p: Event -> bool, x: Event)
    ensures multiset(store.AllEvents(p))[x] == if p(x) then multiset(EventsOf(store.records))[x] else 0
  {
    ListingEvents(store.records);
    FilterCount(p, EventsOf(Listing(store.records)), x);
  }

  /** `getAllEventFileNames` returns each stored name that passes the filter
      exactly as many times as a file has it, and no other name. */
  lemma AllEventFileNamesCounts(store: EventStore, keep: string -> bool, n: string)
    ensures multiset(store.AllEventFileNames(keep))[n] == if keep(n) then multiset(Names(store.records))[n] else 0
  {
    ListingNames(store.records);
    FilterCount(keep, Names(Listing(store.records)), n);
  }

  /** `getAllEvents` returns the events in the listing's order: ascending by
      the name of the file each was read from. */
  lemma AllEventsInNameOrder(store: EventStore, p: Event -> bool)
    requires store.Valid()
    ensures forall i, j | 0 <= i < j < |store.AllEvents(p)| ::
      LexLe(NameOf(store.render, store.AllEvents(p)[i]), NameOf(store.render, store.AllEvents(p)[j]))
  {
    var render, listing := store.render, Listing(store.records);
    var all := EventsOf(listing);
    ListedNamedAfterEvents(render, store.records);
    var le := (x: Event, y: Event) => LexLe(NameOf(render, x), NameOf(render, y));
    forall i, j | 0 <= i < j < |all| ensures le(all[i], all[j]) {
      assert listing[i] in listing && listing[j] in listing;
    }
    FilterKeepsOrder(p, all, le);
    assert store.AllEvents(p) == Filter(p, all);
  }
}
