/** `Array.prototype.filter` over immutable sequences, and the facts about it
    that the store and the state views rely on. */
module Seqs {

  /** The elements of `s` that satisfy `p`, in their order in `s`. */
  function Filter<T(!new)>(p: T -> bool, s: seq<T>): (r: seq<T>)
    ensures |r| <= |s|
    ensures forall x :: x in r <==> x in s && p(x)
    decreases |s|
  {
    if s == [] then []
    else
      var init, last := s[..|s| - 1], s[|s| - 1];
      assert s == init + [last];
      Filter(p, init) + (if p(last) then [last] else [])
  }

  /** Filtering a concatenation filters each part: the order of the kept
      elements is their order in the input. */
  lemma {:induction false} FilterConcat<T(!new)>(p: T -> bool, a: seq<T>, b: seq<T>)
    ensures Filter(p, a + b) == Filter(p, a) + Filter(p, b)
    decreases |b|
  {
    if b == [] {
      assert a + b == a;
    } else {
      var init, last := b[..|b| - 1], b[|b| - 1];
      var tail := if p(last) then [last] else [];
      assert a + b == (a + init) + [last];
      assert b == init + [last];
      FilterSnoc(p, a + init, last);
      FilterSnoc(p, init, last);
      FilterConcat(p, a, init);
      assert Filter(p, a + b) == Filter(p, a) + Filter(p, init) + tail;
    }
  }

  /** Filtering after appending one element. */
  lemma FilterSnoc<T(!new)>(p: T -> bool, s: seq<T>, x: T)
    ensures Filter(p, s + [x]) == Filter(p, s) + (if p(x) then [x] else [])
  {
    assert (s + [x])[..|s|] == s;
  }

  /** Each element is kept exactly as often as it occurs, when it satisfies `p`. */
  lemma {:induction false} FilterCount<T(!new)>(p: T -> bool, s: seq<T>, x: T)
    ensures multiset(Filter(p, s))[x] == if p(x) then multiset(s)[x] else 0
    decreases |s|
  {
    if s != [] {
      var init, last := s[..|s| - 1], s[|s| - 1];
      assert s == init + [last];
      FilterCount(p, init, x);
    }
  }

  /** A filter that keeps everything is the identity. */
  lemma {:induction false} FilterAll<T(!new)>(p: T -> bool, s: seq<T>)
    requires forall i | 0 <= i < |s| :: p(s[i])
    ensures Filter(p, s) == s
    decreases |s|
  {
    if s != [] {
      var init := s[..|s| - 1];
      assert s == init + [s[|s| - 1]];
      FilterAll(p, init);
    }
  }

  /** Filtering keeps the order of what it keeps: elements in order under
      `le` stay in order. */
  lemma {:induction false} FilterKeepsOrder<T(!new)>(p: T -> bool, s: seq<T>, le: (T, T) -> bool)
    requires forall i, j | 0 <= i < j < |s| :: le(s[i], s[j])
    ensures forall i, j | 0 <= i < j < |Filter(p, s)| :: le(Filter(p, s)[i], Filter(p, s)[j])
    decreases |s|
  {
    if s != [] {
      var init, last := s[..|s| - 1], s[|s| - 1];
      assert s == init + [last];
      FilterKeepsOrder(p, init, le);
      var r, front := Filter(p, s), Filter(p, init);
      assert r == front + (if p(last) then [last] else []);
      forall i, j | 0 <= i < j < |r| ensures le(r[i], r[j]) {
        assert r[i] == front[i] && front[i] in init;
        if j == |front| {
          var m :| 0 <= m < |init| && init[m] == front[i];
          assert s[m] == front[i] && s[|s| - 1] == r[j];
          assert le(s[m], s[|s| - 1]);
        } else {
          assert r[j] == front[j];
          assert le(front[i], front[j]);
        }
      }
    }
  }
}
