/** The name under which the store writes an event (app.js, line 26):
    `<timestamp with ':' turned into '-' and the fractional part cut>-<id>-<type>.json`. */
module RecordNames {
  import opened Wrappers
  import opened Strings

  /** `s.replace(/:/g, '-')`: every colon becomes a dash, nothing else moves. */
  function ReplaceColons(s: string): (r: string)
    ensures |r| == |s|
    ensures forall i | 0 <= i < |s| :: r[i] == (if s[i] == ':' then '-' else s[i])
    ensures ':' !in r
  {
    seq(|s|, i requires 0 <= i < |s| => if s[i] == ':' then '-' else s[i])
  }

  /** The characters the regular-expression wildcard `.` does not match. */
  predicate LineTerminator(c: char)
  {
    c == '\n' || c == '\r' || c == '\U{2028}' || c == '\U{2029}'
  }

  /** `/\..+/` can start matching at `i`: a dot followed by at least one
      character the wildcard matches. */
  predicate FractionAt(s: string, i: nat)
    requires i < |s|
  {
    s[i] == '.' && i + 1 < |s| && !LineTerminator(s[i + 1])
  }

  /** The leftmost position at or after `from` where `/\..+/` matches. */
  function FirstFraction(s: string, from: nat): (r: Option<nat>)
    requires from <= |s|
    ensures r.Some? ==> from <= r.value < |s| && FractionAt(s, r.value)
    ensures r.Some? ==> forall j | from <= j < r.value :: !FractionAt(s, j)
    ensures r.None? ==> forall j | from <= j < |s| :: !FractionAt(s, j)
    decreases |s| - from
  {
    if from == |s| then None
    else if FractionAt(s, from) then Some(from)
    else FirstFraction(s, from + 1)
  }

  /** Where the greedy `.+` starting at `from` stops: the next line
      terminator, or the end of the string. */
  function RunEnd(s: string, from: nat): (j: nat)
    requires from <= |s|
    ensures from <= j <= |s|
    ensures forall k | from <= k < j :: !LineTerminator(s[k])
    ensures j < |s| ==> LineTerminator(s[j])
    decreases |s| - from
  {
    if from == |s| || LineTerminator(s[from]) then from else RunEnd(s, from + 1)
  }

  /** `s.replace(/\..+/, '')`: removes the first match, if there is one.
      The text is left as it is exactly when nothing matches; otherwise it
      gets shorter. */
  function DropFraction(s: string): (r: string)
    ensures |r| <= |s|
    ensures |r| == |s| <==> FirstFraction(s, 0).None?
    ensures FirstFraction(s, 0).None? ==> r == s
  {
    match FirstFraction(s, 0)
    case None => s
    case Some(i) =>
      var j := RunEnd(s, i + 1);
      assert s == s[..i] + s[i..j] + s[j..];
      s[..i] + s[j..]
  }

  /** The timestamp part of a record name: no colon survives, and nothing is
      added. */
  function Sanitize(timestamp: string): (r: string)
    ensures ':' !in r
    ensures |r| <= |timestamp|
  {
    var c := ReplaceColons(timestamp);
    DropFractionKeepsCharacters(c);
    assert multiset(c)[':'] == 0;
    DropFraction(c)
  }

  /** Dropping the fraction only removes characters. */
  lemma DropFractionKeepsCharacters(s: string)
    ensures multiset(DropFraction(s)) <= multiset(s)
  {
    match FirstFraction(s, 0)
    case None =>
    case Some(i) =>
      var j := RunEnd(s, i + 1);
      assert s == s[..i] + s[i..j] + s[j..];
  }

  /** The record name of an event with the given timestamp text, id and type
      tag: it contains the id and the tag, and ends with the tag and ".json". */
  function RecordName(timestamp: string, id: string, tag: string): (name: string)
    ensures Contains(name, id) && Contains(name, tag)
    ensures |name| >= |tag| + 5 && name[|name| - |tag| - 5..] == tag + ".json"
  {
    var front := Sanitize(timestamp) + "-";
    var middle := front + id + "-";
    var name := middle + tag + ".json";
    ContainsMiddle(front, id, "-" + tag + ".json");
    assert name == front + id + ("-" + tag + ".json");
    ContainsMiddle(middle, tag, ".json");
    assert name == middle + (tag + ".json");
    name
  }

  /** A timestamp text with neither colons nor dots is kept as it is. */
  lemma SanitizeIdentity(timestamp: string)
    requires ':' !in timestamp && '.' !in timestamp
    ensures Sanitize(timestamp) == timestamp
  {
    var c := ReplaceColons(timestamp);
    assert c == timestamp;
    assert FirstFraction(c, 0).None?;
  }

  /** On a single line of text, sanitizing turns colons into dashes and cuts
      at the first dot that has a character after it: what is left is a
      prefix of the colon-free text with no such dot inside it. */
  lemma SanitizeCutsAtFirstDot(timestamp: string)
    requires forall k | 0 <= k < |timestamp| :: !LineTerminator(timestamp[k])
    ensures var c, r := ReplaceColons(timestamp), Sanitize(timestamp);
      && r <= c
      && (forall k | 0 <= k < |r| - 1 :: r[k] != '.')
      && (|r| < |c| ==> '.' !in r && c[|r|] == '.' && |r| < |c| - 1)
  {
    var c := ReplaceColons(timestamp);
    match FirstFraction(c, 0)
    case None =>
      forall k | 0 <= k < |c| - 1 ensures c[k] != '.' {
        assert !FractionAt(c, k);
      }
    case Some(i) =>
      assert RunEnd(c, i + 1) == |c|;
      assert Sanitize(timestamp) == c[..i];
      forall k | 0 <= k < i ensures c[k] != '.' {
        assert !FractionAt(c, k);
      }
      assert '.' !in c[..i];
  }

  /** The timestamp text `new Date().toISOString()` produces, as it appears
      in a record name. */
  lemma SanitizeIsoExample()
    ensures Sanitize("2024-05-01T00:00:00.000Z") == "2024-05-01T00-00-00"
  {
    var c := ReplaceColons("2024-05-01T00:00:00.000Z");
    assert c == "2024-05-01T00-00-00.000Z";
    assert FractionAt(c, 19);
    assert forall j | 0 <= j < 19 :: c[j] != '.';
    assert FirstFraction(c, 0) == Some(19);
    assert RunEnd(c, 20) == |c|;
  }
}
