# Open Space event store and state views

A Dafny model of the event-sourcing kernel of the Open Space record-keeper
(`app.js`). The kernel has two parts.

- **The event store.** It is an append-only directory with one JSON file per
  event. `writeEventIfIdNotExists` writes an event under the name
  `<timestamp with ':' turned into '-' and the fraction cut>-<id>-<type>.json`.
  It writes only when no existing file name contains the event's id.
  `getAllEventFileNames` and `getAllEvents` list file names and decoded events
  that pass a filter, in the order `fs.readdirSync` lists the directory:
  ascending by file name. `getLastEvent` returns the event in
  the file whose name is lexicographically greatest among the names that
  contain a type tag, or nothing.
- **The state views.** These are pure folds over the events an injected
  `eventsFunction` returns for a type filter. `OpenSpaceNameSV` and
  `OpenSpaceDateRangeSV` sort by timestamp and take the last event, or return a
  fixed "not found" view. `SessionsSV` returns all topic submissions sorted by
  timestamp.

Layout, one module per file:

- `events.dfy` (`Events`): the three event variants. Constructor arguments
  follow the order of `new OpenSpaceNamedEvent(spaceName, timestamp, id)` and
  the other two constructors. The `type` tag is a function of the variant.
- `record_names.dfy` (`RecordNames`): the file-name construction, including
  the two regular-expression replacements.
- `event_store.dfy` (`EventStore`): the store as a class. Its field `records`
  holds the files as (name, decoded event) pairs, in the order they were
  written. `Listing` is what `readdirSync` returns for them: the same files
  sorted by name. `render` is how a timestamp is written as text. `WriteEventIfIdNotExists` is a method that
  `modifies this`. It is specified by the function `Appended`, and the
  properties of the store are proved about `Appended`.
- `ordering.dfy` (`Ordering`): the stable sort by timestamp and the
  "sort, then take the last" selection. `LatestIndex` is a reference
  definition that does not sort.
- `state_views.dfy` (`StateViews`): the three views, the built-in tests, and
  the write-then-read flows of the request handlers.
- `seqs.dfy`, `strings.dfy`, `wrappers.dfy`: `filter`, `includes`, the
  default string order of `sort()`, and `Option`.

Modelling choices:

- **Timestamps are integers** (milliseconds), as in the `Date` fixtures of
  the built-in tests. This gives the intended chronological ordering. At run
  time, events read back from JSON carry ISO strings. The comparator
  `a.timestamp - b.timestamp` is then `NaN`, which `sort` treats as "equal",
  so a view in the running application keeps the listing's name order. The model does
  not reproduce this artefact.
- **Directory order.** Node's `readdirSync` goes through libuv's `scandir`,
  which sorts the entries with `strcmp`. On UTF-8 file names that is the
  order of the characters' code points, which is `LexLe`. Every read goes
  through `Listing`, so a new file lands at its name's position, not at the
  end. When a stored event passes the same filter and has the same timestamp
  as a new one, the event in the file whose name sorts later is the one a
  view selects. `Supersedes` states exactly when the new event wins
  (`WrittenIsLatest`).
- **File names.** The file name needs the timestamp as text
  (`new Date().toISOString()`). The store is given that rendering as a
  parameter, `render`.
- **The regular expressions.** `/\..+/` is modelled exactly. The wildcard `.`
  does not match the line terminators `\n`, `\r`, U+2028 and U+2029, so a
  dot followed only by a line terminator is not cut.
- **Fields of another variant.** A view reads a field such as `spaceName` from
  whatever event the fetch returned. If that event is of another variant,
  JavaScript yields `undefined`; the model's `Field.Undefined` stands for it.
  The built-in tests pass a fetch that ignores its filter, which is
  `PrefixFetch`. The application passes `getAllEvents`, which is
  `FilteringFetch`. With `getAllEvents` the fields are always defined
  (`NameViewOverStore`, `DateRangeViewOverStore`).
- **The id check is a substring test.** A write is skipped when its id occurs
  anywhere inside an existing file name, including inside another event's
  timestamp, id or type. Every file name ends in "Event.json", so once the
  store holds a file, an event with id "json", "Event" or the empty id is
  never written (`SubstringOfNameBlocksWrite`). The
  ids come from the request body (`app.js:36`), so a client can choose one.
- **The topic event's `type`.** `TopicSubmittedEvent` takes a constructor
  argument named `type` (the topic category). The event classes under
  `events/` are not part of this model. The model keeps the category as a
  separate field, `category`, and takes the event's `type` tag to be
  `"TopicSubmittedEvent"`, since `SessionsSV` filters on that tag.

## Model

| member | source | states |
|---|---|---|
| `Events.Type` | app.js:44 | Each variant has its own tag: the tag is "OpenSpaceNamedEvent", "DateRangeSetEvent" or "TopicSubmittedEvent" exactly for the matching variant, and every tag ends in "Event" |
| `Strings.Contains` | app.js:26-27 | `includes`: the empty string occurs in every string, nothing occurs in a shorter string, and a string of equal length occurs exactly when it is the same string |
| `Strings.LexLe` | app.js:25-27 | The order of `sort()` and of the directory listing extends the prefix order: a prefix comes first |
| `Strings.LexLeReflexive` | app.js:27 | Every name is ordered before or equal to itself |
| `Strings.LexLeTotal` | app.js:27 | Any two names are comparable |
| `Strings.LexLeAntisymmetric` | app.js:27 | Two names each ordered before the other are equal |
| `Strings.LexLeTransitive` | app.js:27 | The name order is transitive |
| `RecordNames.ReplaceColons` | app.js:26 | `replace(/:/g, '-')` keeps the length, turns every colon into a dash, leaves every other character in place, and leaves no colon |
| `RecordNames.FirstFraction` | app.js:26 | Finds the leftmost position where `/\..+/` matches: a dot followed by a character other than a line terminator, with no such dot before it; `None` exactly when there is none |
| `RecordNames.RunEnd` | app.js:26 | The greedy `.+` stops at the first line terminator or at the end of the text |
| `RecordNames.DropFraction` | app.js:26 | `replace(/\..+/, '')` leaves the text unchanged exactly when the pattern does not match, and otherwise shortens it |
| `RecordNames.DropFractionKeepsCharacters` | app.js:26 | Cutting the fraction only removes characters |
| `RecordNames.Sanitize` | app.js:26 | The timestamp part of a file name has no colon and is no longer than the timestamp text |
| `RecordNames.RecordName` | app.js:26 | The file name built from timestamp, id and type contains the id and the type, and ends with the type followed by ".json" |
| `RecordNames.SanitizeIdentity` | app.js:26 | A timestamp text with no colon and no dot is kept unchanged |
| `RecordNames.SanitizeCutsAtFirstDot` | app.js:26 | On one line of text, the result is a prefix of the colon-free text; when something was cut, the kept prefix has no dot at all and the cut starts at a dot with a character after it |
| `RecordNames.SanitizeIsoExample` | app.js:26 | "2024-05-01T00:00:00.000Z" becomes "2024-05-01T00-00-00" |
| `Seqs.Filter` | app.js:29 | `filter` keeps exactly the elements that pass, and never makes the list longer |
| `Seqs.FilterConcat` | app.js:29 | Filtering a concatenation filters each part, so kept elements stay in input order |
| `Seqs.FilterCount` | app.js:29 | Each element passing the filter is kept exactly as many times as it occurs; others are dropped |
| `Seqs.FilterAll` | app.js:71 | A filter every element passes returns its input unchanged |
| `Seqs.FilterKeepsOrder` | app.js:25 | Filtering a list that is in order leaves it in order |
| `EventStore.NameOf` | app.js:26 | The file an event is written under has a name containing the event's id |
| `EventStore.NameOfParts` | app.js:26-27 | That name also contains the event's type, which `getLastEvent` searches for, and ends with "Event.json" |
| `EventStore.Names` | app.js:25 | The names of the files, one per file in the same order; a name is listed exactly when some file has it |
| `EventStore.EventsOf` | app.js:29 | The decoded events, one per file in the same order; an event is present exactly when some file holds it |
| `EventStore.NamePosition` | app.js:25 | In a listing sorted by name, the position of a new name: every file before it sorts below the name, every file from it on sorts at or above |
| `EventStore.InsertByName` | app.js:25 | Placing a file at its name's position keeps the listing sorted by name |
| `EventStore.Listing` | app.js:25-29 | `readdirSync` lists the stored files sorted by name, each exactly once: a permutation of the files, in name order |
| `EventStore.ListingEvents` | app.js:29 | Reading through the listing yields each stored event exactly as often as it is stored |
| `EventStore.MentioningHits` | app.js:26-27 | Some file name passes `file.includes(sub)` exactly when some stored record's name contains `sub` |
| `EventStore.IdTaken` | app.js:26 | The scan finds a hit exactly when some stored file name contains the id as a substring |
| `EventStore.Appended` | app.js:26 | The store grows by exactly one record, named after the event, when no name contains the id, and is unchanged otherwise; earlier records are kept in both cases |
| `EventStore.AppendedConsistent` | app.js:26 | Writing keeps every file named after its event, and keeps every id out of all earlier file names |
| `EventStore.AppendedIdempotent` | app.js:26 | Writing the same event twice leaves the store as writing it once does |
| `EventStore.ConsistentUnique` | app.js:26 | In a store built by writes, no two files hold the same id and no two files share a name |
| `EventStore.AppendedThenRead` | app.js:25-29 | A skipped write changes no listing. After a write, a read returns the events of the files named before the new one, then the new event if it passes the filter, then the events of the other files; without the new event that is exactly the earlier read |
| `EventStore.SubstringOfNameBlocksWrite` | app.js:26 | In any non-empty store built by writes, an event whose id occurs in "Event.json" is not written, whatever ids the stored events have |
| `EventStore.GreatestByName` | app.js:27 | `sort().reverse()[0]` selects a record whose name is not lexicographically smaller than any other |
| `EventStore.GreatestMentioning` | app.js:27 | The record selected from the listed names containing the tag is a stored record whose name contains the tag, and no such name is greater |
| `EventStore.MentioningNames` | app.js:27 | The names containing the tag are empty exactly when no stored name contains it; otherwise the listing has a file whose name contains it |
| `EventStore.EventStore.constructor` | app.js:24 | A new store is an empty directory that satisfies the store invariant |
| `EventStore.EventStore.AllEventFileNames` | app.js:25 | Returns exactly the stored file names that pass the filter, in ascending name order, never more names than files; `AllEventFileNamesCounts` adds that each comes back as often as it is stored |
| `EventStore.EventStore.WriteEventIfIdNotExists` | app.js:26 | The new directory is `Appended(old directory, event)`, and the store invariant is kept |
| `EventStore.EventStore.AllEvents` | app.js:29 | Returns exactly the stored events that pass the filter, never more events than files; `AllEventsCounts` adds their counts and `AllEventsInNameOrder` their order |
| `EventStore.EventStore.LastEvent` | app.js:27-28 | `None` exactly when no file name contains the tag; otherwise the event of a file whose name contains the tag and is lexicographically greatest among such names |
| `EventStore.AllEventsCounts` | app.js:29 | `getAllEvents` returns each stored event that passes the filter exactly as often as it is stored, and no other event |
| `EventStore.AllEventsInNameOrder` | app.js:29 | In a store built by writes, `getAllEvents` returns the events in the listing's order: ascending by the name of the file each is stored in |
| `EventStore.AllEventFileNamesCounts` | app.js:25 | `getAllEventFileNames` returns each stored name that passes the filter exactly as often as a file has it, and no other name |
| `EventStore.ListingNames` | app.js:25 | The listing holds every stored file name exactly as often as the store |
| `Ordering.Insert` | app.js:44 | Inserting into an ascending list keeps it ascending, and adds exactly the one event |
| `Ordering.SortByTimestamp` | app.js:44 | The sort result is ascending by timestamp and a permutation of its input |
| `Ordering.InsertStable` | app.js:71 | An insertion puts the new event after every event with the same timestamp |
| `Ordering.SortStable` | app.js:71 | The sort is stable: for every timestamp, the events with that timestamp keep their input order |
| `Ordering.Latest` | app.js:44 | `reverse()[0]` of the sorted list is `None` exactly for no events; otherwise it is an input event with the greatest timestamp |
| `Ordering.LastMaximalUnique` | app.js:44 | There is at most one last position of a greatest timestamp |
| `Ordering.LatestIndex` | app.js:44 | Reference selection without sorting: the last position holding the greatest timestamp |
| `Ordering.LatestAtLatestIndex` | app.js:44 | Sorting and taking the last gives the event at the last position of the greatest timestamp, so the later event wins ties |
| `Ordering.SortSingle` | app.js:71 | A single event sorts to itself |
| `Ordering.SortPair` | app.js:71 | Two events with different timestamps come out in timestamp order, in either input order |
| `Ordering.SortPairInOrder` | app.js:71 | Two events already in timestamp order stay in that order |
| `Ordering.SortPairSwapped` | app.js:71 | Two events in reverse timestamp order are swapped |
| `StateViews.OpenSpaceNameSV` | app.js:43-46 | With no fetched event the view is `{spaceName: "", errorMessage: "No space has been created yet."}`; otherwise `errorMessage` is "" and `spaceName` is that of the latest event, the later one on ties |
| `StateViews.OpenSpaceDateRangeSV` | app.js:56-59 | With no fetched event the view is `{errorMessage: "Date range not set yet.", startDate: "", endDate: ""}`; otherwise `errorMessage` is "" and the dates are those of the latest event, the later one on ties |
| `StateViews.SessionsSV` | app.js:70-72 | The sessions are ascending by timestamp and a permutation of the fetched topic submissions, with the same count |
| `StateViews.SessionsStable` | app.js:71 | Sessions that share a timestamp keep the fetched order |
| `StateViews.FilteringFetch` | app.js:29-34 | The `getAllEvents` the handlers pass returns, for every filter, exactly the listed events that pass it |
| `StateViews.PrefixFetch` | app.js:95-122 | The fetch `() => testEventStream.slice(0, k)` ignores its filter and returns the first k events |
| `StateViews.NameViewOverStore` | app.js:43-46 | Over the store, the name view reports "not created" exactly when no space has been named, and its name is always defined |
| `StateViews.DateRangeViewOverStore` | app.js:56-59 | Over the store, the date view reports "not set" exactly when no range has been set, and its dates are always defined |
| `StateViews.SessionsOverStore` | app.js:70-72 | Over the store, the sessions are exactly the stored topic submissions, each as often as it is stored |
| `StateViews.SessionsOfTopics` | app.js:71 | When every fetched event is a topic submission, the sessions are the fetched events sorted by timestamp |
| `StateViews.NewestIsLatest` | app.js:44 | An event whose timestamp is not below any other, placed last, is the one selected |
| `StateViews.IncreasingPrefixName` | app.js:90-126 | For strictly increasing timestamps, the view over the first k events names the k-th event, and over none it is "not created" |
| `StateViews.TestEventStreamIncreasing` | app.js:84-88 | The test fixture holds three naming events with strictly increasing timestamps |
| `StateViews.BuiltInTests` | app.js:84-126 | The four built-in tests: no events gives "No space has been created yet.", and the first one, two and three events give Test1, Test2 and Test3 |
| `StateViews.InsertedIsLatest` | app.js:44 | An event with nothing later before it and only earlier events after it is the one sort-then-last selects |
| `StateViews.InsertedNotLatest` | app.js:44 | An event is not selected when a later event is present, or when a different event after it is as late |
| `StateViews.NotStored` | app.js:26 | In a store built by writes, an event whose id no file name contains is not stored |
| `StateViews.WrittenIsLatest` | app.js:39-44 | After writing a new event that passes the filter, the read is non-empty, and the latest event read is the new one exactly when every stored event that passes is older, or as old and stored under a name that sorts before the new file's name |
| `StateViews.NameAfterWrite` | app.js:37-40 | Writing a new naming event that supersedes every stored one (older, or as old and named before it) and then reading the view shows its name |
| `StateViews.DateRangeAfterWrite` | app.js:51-53 | Writing a new date-range event that supersedes every stored one and then reading the view shows its dates |
| `StateViews.SessionsInSubmissionOrder` | app.js:64-67 | Two topics submitted one after the other are listed in submission order, whatever order the directory lists them in |

## Left out

- HTTP routing, request parsing, redirects and Handlebars rendering (`app.js:10-22`, `32-42`, `48-55`, `61-69`) are plumbing around the core. This includes the blank-name check that answers 400.
- Filesystem calls are replaced by the in-memory `records` sequence and its `Listing`. I/O errors, and their translation into the 500 responses, are not modelled.
- JSON serialisation and parsing are left out. Decoding is the identity on stored events. The `catch` in `getLastEvent` is modelled only as the "no file name contains the tag" case. A decode failure cannot occur in the model.
- `uuidv4()` and `new Date().toISOString()` are foreign and nondeterministic. Ids and timestamps are inputs, and the timestamp's text form is the store's `render` parameter.
- Concurrent requests, and the check-then-write race on one id, are outside a sequential model.
- The test runner's logging and process exit (`app.js:5-8`, `74-83`, `127-133`) are left out. The test fixtures are used as lemma inputs in `BuiltInTests`.
- The `NaN` comparator artefact on ISO-string timestamps is not modelled, and neither is ISO-8601 parsing: timestamps are integers.
- `EventStore.GreatestByName`: the default `sort()` compares UTF-16 code units, while `LexLe` compares Dafny characters (Unicode scalar values). The two orders differ only on characters outside the Basic Multilingual Plane. The directory listing compares UTF-8 bytes, which is code-point order, so `Listing` agrees with it exactly.
- `EventStore.Listing`: models the listing order of libuv on POSIX systems. On Windows the order is the filesystem's own, and it is not modelled.
- `EventStore.Listing`: file names that the filesystem would reject or rewrite (a `/` in an id, names longer than the filesystem allows) are stored as given.
- The event classes under `events/` are not part of this model. Their field names are taken from the uses in `app.js`.
