/** The two string operations of JavaScript that the event store relies on:
    `String.prototype.includes` and the default ordering of `Array.prototype.sort`. */
module Strings {

  /** `sub` occurs in `s` starting at position `i`. */
  predicate OccursAt(s: string, sub: string, i: int)
  {
    0 <= i <= |s| - |sub| && s[i..i + |sub|] == sub
  }

  /** `s.includes(sub)`: `sub` occurs in `s` at some position. The empty
      string occurs in every string, a string occurs in itself, and no
      string occurs in a shorter one. */
  function Contains(s: string, sub: string): (b: bool)
    ensures b ==> |sub| <= |s|
    ensures sub == [] ==> b
    ensures |sub| == |s| ==> (b <==> sub == s)
  {
    assert sub == [] || sub == s ==> OccursAt(s, sub, 0);
    exists i | 0 <= i <= |s| - |sub| :: OccursAt(s, sub, i)
  }

  /** A string contains whatever its suffix contains. */
  lemma ContainsInSuffix(s: string, t: string, sub: string)
    requires |t| <= |s| && s[|s| - |t|..] == t
    requires Contains(t, sub)
    ensures Contains(s, sub)
  {
    var i :| 0 <= i <= |t| - |sub| && OccursAt(t, sub, i);
    var at := |s| - |t| + i;
    assert s[at..at + |sub|] == t[i..i + |sub|];
    assert OccursAt(s, sub, at);
  }

  /** A string contains every string it is built around. */
  lemma ContainsMiddle(a: string, sub: string, b: string)
    ensures Contains(a + sub + b, sub)
  {
    var s := a + sub + b;
    assert s[|a|..|a| + |sub|] == sub;
    assert OccursAt(s, sub, |a|);
  }

  /** Lexicographic order on code points: a prefix comes first. It is the
      order in which a directory is listed (`strcmp` on UTF-8 names). The
      default `sort()` compares UTF-16 code units instead, which agrees with
      it except on characters outside the Basic Multilingual Plane. */
  function LexLe(a: string, b: string): (le: bool)
    ensures a <= b ==> le
    decreases |a|
  {
    if a == [] then true
    else if b == [] then false
    else if a[0] != b[0] then a[0] < b[0]
    else LexLe(a[1..], b[1..])
  }

  lemma {:induction false} LexLeReflexive(a: string)
    ensures LexLe(a, a)
    decreases |a|
  {
    if a != [] {
      LexLeReflexive(a[1..]);
    }
  }

  lemma {:induction false} LexLeTotal(a: string, b: string)
    ensures LexLe(a, b) || LexLe(b, a)
    decreases |a|
  {
    if a != [] && b != [] && a[0] == b[0] {
      LexLeTotal(a[1..], b[1..]);
    }
  }

  lemma {:induction false} LexLeAntisymmetric(a: string, b: string)
    requires LexLe(a, b) && LexLe(b, a)
    ensures a == b
    decreases |a|
  {
    if a != [] && b != [] {
      LexLeAntisymmetric(a[1..], b[1..]);
      assert a == [a[0]] + a[1..] && b == [b[0]] + b[1..];
    }
  }

  lemma {:induction false} LexLeTransitive(a: string, b: string, c: string)
    requires LexLe(a, b) && LexLe(b, c)
    ensures LexLe(a, c)
    decreases |a|
  {
    if a != [] && b != [] && c != [] && a[0] == b[0] == c[0] {
      LexLeTransitive(a[1..], b[1..], c[1..]);
    }
  }
}
