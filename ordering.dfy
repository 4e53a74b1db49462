/** `events.sort((a, b) => a.timestamp - b.timestamp)` and
    `.reverse()[0]` (app.js, lines 44, 57 and 71). `Array.prototype.sort` is
    stable, so the sort is modelled as a stable insertion sort. */
module Ordering {
  import opened Wrappers
  import opened Seqs
  import opened Events

  predicate Ascending(s: seq<Event>)
  {
    forall i, j | 0 <= i < j < |s| :: s[i].timestamp <= s[j].timestamp
  }

  /** Puts `x` after every element whose timestamp is not greater than its own. */
  function Insert(sorted: seq<Event>, x: Event): (r: seq<Event>)
    requires Ascending(sorted)
    ensures Ascending(r)
    ensures forall e | e in r :: e == x || e in sorted
    ensures multiset(r) == multiset(sorted) + multiset{x}
    decreases |sorted|
  {
    if sorted == [] || sorted[|sorted| - 1].timestamp <= x.timestamp then sorted + [x]
    else
      var init, last := sorted[..|sorted| - 1], sorted[|sorted| - 1];
      assert sorted == init + [last];
      var front := Insert(init, x);
      InsertBelow(sorted, x, front);
      front + [last]
  }

  /** The step of `Insert` that puts the last event back: every event before
      it is not later than it. */
  lemma InsertBelow(sorted: seq<Event>, x: Event, front: seq<Event>)
    requires Ascending(sorted) && sorted != []
    requires x.timestamp < sorted[|sorted| - 1].timestamp
    requires Ascending(front)
    requires forall e | e in front :: e == x || e in sorted[..|sorted| - 1]
    requires multiset(front) == multiset(sorted[..|sorted| - 1]) + multiset{x}
    ensures var r := front + [sorted[|sorted| - 1]];
      && Ascending(r)
      && (forall e | e in r :: e == x || e in sorted)
      && multiset(r) == multiset(sorted) + multiset{x}
  {
    var init, last := sorted[..|sorted| - 1], sorted[|sorted| - 1];
    assert sorted == init + [last];
    forall i | 0 <= i < |front| ensures front[i].timestamp <= last.timestamp {
      assert front[i] in front;
      if front[i] != x {
        var k :| 0 <= k < |init| && init[k] == front[i];
        assert sorted[k] == front[i];
      }
    }
  }

  /** The events ordered by ascending timestamp. */
  function SortByTimestamp(s: seq<Event>): (r: seq<Event>)
    ensures Ascending(r)
    ensures multiset(r) == multiset(s)
    decreases |s|
  {
    if s == [] then []
    else
      assert s == s[..|s| - 1] + [s[|s| - 1]];
      Insert(SortByTimestamp(s[..|s| - 1]), s[|s| - 1])
  }

  /** Selects the events with timestamp `t`. */
  function AtTime(t: int): Event -> bool
  {
    (e: Event) => e.timestamp == t
  }

  lemma {:induction false} InsertStable(sorted: seq<Event>, x: Event, t: int)
    requires Ascending(sorted)
    ensures Filter(AtTime(t), Insert(sorted, x)) == Filter(AtTime(t), sorted + [x])
    decreases |sorted|
  {
    var q := AtTime(t);
    if sorted != [] && sorted[|sorted| - 1].timestamp > x.timestamp {
      var init, last := sorted[..|sorted| - 1], sorted[|sorted| - 1];
      assert sorted == init + [last];
      var front := Insert(init, x);
      assert Insert(sorted, x) == front + [last];
      var fx := if q(x) then [x] else [];
      var fl := if q(last) then [last] else [];
      assert fx == [] || fl == [];
      assert Filter(q, front + [last]) == Filter(q, front) + fl by {
        FilterSnoc(q, front, last);
      }
      assert Filter(q, front) == Filter(q, init) + fx by {
        InsertStable(init, x, t);
        FilterSnoc(q, init, x);
      }
      assert Filter(q, sorted + [x]) == Filter(q, init) + fl + fx by {
        FilterSnoc(q, init, last);
        FilterSnoc(q, sorted, x);
      }
      assert Filter(q, init) + fx + fl == Filter(q, init) + fl + fx by {
        if fx == [] {
          assert Filter(q, init) + fx == Filter(q, init);
          assert Filter(q, init) + fl + fx == Filter(q, init) + fl;
        } else {
          assert Filter(q, init) + fl == Filter(q, init);
          assert Filter(q, init) + fx + fl == Filter(q, init) + fx;
        }
      }
      assert Filter(q, Insert(sorted, x)) == Filter(q, sorted + [x]);
    } else {
      assert Insert(sorted, x) == sorted + [x];
    }
  }

  /** Stability: the events sharing any one timestamp keep their input order. */
  lemma {:induction false} SortStable(s: seq<Event>, t: int)
    ensures Filter(AtTime(t), SortByTimestamp(s)) == Filter(AtTime(t), s)
    decreases |s|
  {
    if s != [] {
      var init, x := s[..|s| - 1], s[|s| - 1];
      assert s == init + [x];
      SortStable(init, t);
      InsertStable(SortByTimestamp(init), x, t);
      FilterSnoc(AtTime(t), SortByTimestamp(init), x);
      FilterSnoc(AtTime(t), init, x);
    }
  }

  /** `sort(...).reverse()[0]`: the last event after sorting, if any. */
  function Latest(s: seq<Event>): (r: Option<Event>)
    ensures r.None? <==> s == []
    ensures r.Some? ==> r.value in s && forall e | e in s :: e.timestamp <= r.value.timestamp
  {
    var sorted := SortByTimestamp(s);
    assert |sorted| == |s| by {
      assert |multiset(sorted)| == |multiset(s)|;
    }
    if sorted == [] then None
    else
      var last := sorted[|sorted| - 1];
      assert last in multiset(s);
      forall e | e in s ensures e.timestamp <= last.timestamp {
        assert e in multiset(sorted);
      }
      Some(last)
  }

  /** `k` is the last position holding a greatest timestamp of `s`. */
  ghost predicate LastMaximal(s: seq<Event>, k: int)
  {
    && 0 <= k < |s|
    && (forall j | 0 <= j < |s| :: s[j].timestamp <= s[k].timestamp)
    && (forall j | k < j < |s| :: s[j].timestamp < s[k].timestamp)
  }

  lemma LastMaximalUnique(s: seq<Event>, k1: int, k2: int)
    requires LastMaximal(s, k1) && LastMaximal(s, k2)
    ensures k1 == k2
  {
    assert s[k1].timestamp == s[k2].timestamp;
  }

  /** The position of the greatest timestamp, the later one on ties: a
      reference definition that does not sort. */
  function LatestIndex(s: seq<Event>): (k: nat)
    requires s != []
    ensures LastMaximal(s, k)
    decreases |s|
  {
    if |s| == 1 then 0
    else
      var k := LatestIndex(s[..|s| - 1]);
      if s[k].timestamp <= s[|s| - 1].timestamp then |s| - 1 else k
  }

  /** Sorting stably and taking the last element selects the greatest
      timestamp, the later event winning ties. */
  lemma {:induction false} LatestAtLatestIndex(s: seq<Event>)
    requires s != []
    ensures Latest(s) == Some(s[LatestIndex(s)])
    decreases |s|
  {
    var init, x := s[..|s| - 1], s[|s| - 1];
    assert s == init + [x];
    var sorted := SortByTimestamp(init);
    assert SortByTimestamp(s) == Insert(sorted, x);
    if init == [] {
      assert sorted == [];
      assert Insert(sorted, x) == [x];
    } else {
      var k := LatestIndex(init);
      assert LatestIndex(s) == if init[k].timestamp <= x.timestamp then |s| - 1 else k;
      assert sorted[|sorted| - 1] == init[k] by {
        LatestAtLatestIndex(init);
      }
      if init[k].timestamp <= x.timestamp {
        assert Insert(sorted, x) == sorted + [x];
      } else {
        assert Insert(sorted, x) == Insert(sorted[..|sorted| - 1], x) + [init[k]];
      }
    }
  }

  lemma SortSingle(a: Event)
    ensures SortByTimestamp([a]) == [a]
  {
    assert [a][..0] == [];
  }

  /** Two events with different timestamps come out in timestamp order,
      whichever order they come in. */
  lemma SortPair(a: Event, b: Event)
    requires a.timestamp < b.timestamp
    ensures SortByTimestamp([a, b]) == [a, b]
    ensures SortByTimestamp([b, a]) == [a, b]
  {
    SortPairInOrder(a, b);
    SortPairSwapped(a, b);
  }

  lemma SortPairInOrder(a: Event, b: Event)
    requires a.timestamp < b.timestamp
    ensures SortByTimestamp([a, b]) == [a, b]
  {
    assert [a, b][..1] == [a];
    assert SortByTimestamp([a, b]) == Insert(SortByTimestamp([a]), b);
    SortSingle(a);
    assert Insert([a], b) == [a] + [b];
  }

  lemma SortPairSwapped(a: Event, b: Event)
    requires a.timestamp < b.timestamp
    ensures SortByTimestamp([b, a]) == [a, b]
  {
    assert [b, a][..1] == [b];
    SortSingle(b);
    assert [b][..0] == [];
  }
}
