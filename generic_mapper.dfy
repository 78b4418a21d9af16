/**
 * The two hand-written `map` overloads of `GenericMapper`: a comma-separated string to a
 * list of strings and back. The generated MapStruct mappings of the class are not modelled.
 */
module GenericMapper {
  import opened Wrappers
  import opened Text

  /** Every piece of `s` between commas, empty pieces included, in order. */
  function SplitAll(s: string): (parts: seq<string>)
    ensures |parts| >= 1
    ensures forall k :: 0 <= k < |parts| ==> ',' !in parts[k]
    decreases |s|
  {
    var i := IndexOf(s, ',');
    if i == -1 then [s] else [s[..i]] + SplitAll(s[i + 1..])
  }

  /** Java's `split` with limit 0 removes the trailing empty strings of the result. */
  function DropTrailingEmpty(parts: seq<string>): (r: seq<string>)
    ensures |r| <= |parts| && r == parts[..|r|]
    ensures |r| > 0 ==> r[|r| - 1] != ""
    ensures forall k :: |r| <= k < |parts| ==> parts[k] == ""
  {
    if |parts| > 0 && parts[|parts| - 1] == "" then DropTrailingEmpty(parts[..|parts| - 1]) else parts
  }

  /** `s.split(",")`: a string without a comma comes back whole, even when it is empty. */
  function JavaSplit(s: string): seq<string> {
    if ',' !in s then [s] else DropTrailingEmpty(SplitAll(s))
  }

  /** `String.join(",", parts)`. */
  function Join(parts: seq<string>): string {
    if |parts| == 0 then ""
    else if |parts| == 1 then parts[0]
    else parts[0] + "," + Join(parts[1..])
  }

  function SumOfLengths(parts: seq<string>): nat {
    if |parts| == 0 then 0 else |parts[0]| + SumOfLengths(parts[1..])
  }

  predicate AllCommas(t: string) {
    forall k :: 0 <= k < |t| ==> t[k] == ','
  }

  /**
   * `split` of a non-blank string: comma-free pieces, the last not empty, which joined
   * again give the string up to its trailing commas.
   */
  lemma JavaSplitFacts(s: string)
    requires IsNotBlank(s)
    ensures var parts := JavaSplit(s);
      && (forall k :: 0 <= k < |parts| ==> ',' !in parts[k])
      && (|parts| > 0 ==> parts[|parts| - 1] != "")
      && StartsWith(s, Join(parts)) && AllCommas(s[|Join(parts)|..])
  {
    var parts := JavaSplit(s);
    SplitAllJoin(s);
    if ',' in s {
      var all := SplitAll(s);
      if |parts| == 0 {
        AllEmptyJoin(all);
      } else {
        TrailingJoin(all, |parts|);
      }
    } else {
      var i :| 0 <= i < |s| && !IsWhitespace(s[i]);
    }
  }

  /**
   * `map(String)`: null for a null or blank value; otherwise the comma-separated parts, none
   * of them holding a comma, the last not empty, which joined again give the value up to its
   * trailing commas.
   */
  function MapFromString(value: Option<string>): (r: Option<seq<string>>)
    ensures r.None? <==> value.None? || !IsNotBlank(value.value)
    ensures r.Some? ==> forall k :: 0 <= k < |r.value| ==> ',' !in r.value[k]
    ensures r.Some? ==>
      var joined := Join(r.value);
      StartsWith(value.value, joined) && AllCommas(value.value[|joined|..])
    ensures r.Some? && |r.value| > 0 ==> r.value[|r.value| - 1] != ""
  {
    if value.Some? && IsNotBlank(value.value) then
      JavaSplitFacts(value.value);
      Some(JavaSplit(value.value))
    else
      None
  }

  /**
   * `map(List<String>)`: null for a null or empty list; otherwise the elements joined in
   * order with ',', so the length is the sum of the lengths plus one comma between each pair,
   * and cutting at every comma gives back the elements when none of them holds a comma.
   */
  function MapToString(values: Option<seq<string>>): (r: Option<string>)
    ensures r.None? <==> values.None? || |values.value| == 0
    ensures r.Some? ==> |r.value| == SumOfLengths(values.value) + |values.value| - 1
    ensures r.Some? && (forall k :: 0 <= k < |values.value| ==> ',' !in values.value[k]) ==>
      SplitAll(r.value) == values.value
  {
    if values.Some? && |values.value| > 0 then
      JoinFacts(values.value);
      Some(Join(values.value))
    else
      None
  }

  /** What the join of a non-empty list is: its length, and its pieces when no element holds a comma. */
  lemma JoinFacts(parts: seq<string>)
    requires |parts| > 0
    ensures |Join(parts)| == SumOfLengths(parts) + |parts| - 1
    ensures (forall k :: 0 <= k < |parts| ==> ',' !in parts[k]) ==> SplitAll(Join(parts)) == parts
  {
    JoinLength(parts);
    if forall k :: 0 <= k < |parts| ==> ',' !in parts[k] {
      JoinSplitAll(parts);
    }
  }

  lemma {:induction false} JoinLength(parts: seq<string>)
    requires |parts| > 0
    ensures |Join(parts)| == SumOfLengths(parts) + |parts| - 1
  {
    if |parts| > 1 {
      JoinLength(parts[1..]);
    }
  }

  /** Joining a piece in front of at least one more puts a comma between. */
  lemma JoinCons(head: string, rest: seq<string>)
    requires |rest| > 0
    ensures Join([head] + rest) == head + "," + Join(rest)
  {
    assert ([head] + rest)[1..] == rest;
  }

  /** A string cut around one of its commas and glued back with a comma is the same string. */
  lemma CommaSplice(s: string, i: int)
    requires 0 <= i < |s| && s[i] == ','
    ensures s[..i] + "," + s[i + 1..] == s
  {
    assert s == s[..i] + [s[i]] + s[i + 1..];
  }

  /** A string with a comma splits into the piece before it and the split of the rest. */
  lemma SplitAllAt(s: string, i: int)
    requires i == IndexOf(s, ',') && i != -1
    ensures SplitAll(s) == [s[..i]] + SplitAll(s[i + 1..])
  {
  }

  /** Joining the pieces of a split gives the string back. */
  lemma {:induction false} SplitAllJoin(s: string)
    ensures Join(SplitAll(s)) == s
    decreases |s|
  {
    var i := IndexOf(s, ',');
    if i != -1 {
      var rest := SplitAll(s[i + 1..]);
      SplitAllAt(s, i);
      JoinCons(s[..i], rest);
      SplitAllJoin(s[i + 1..]);
      CommaSplice(s, i);
    }
  }

  /** Splitting a join of comma-free pieces gives the pieces back. */
  lemma {:induction false} JoinSplitAll(parts: seq<string>)
    requires |parts| > 0
    requires forall k :: 0 <= k < |parts| ==> ',' !in parts[k]
    ensures SplitAll(Join(parts)) == parts
  {
    if |parts| > 1 {
      var s := Join(parts);
      var tail := Join(parts[1..]);
      assert s == parts[0] + "," + tail;
      assert s[|parts[0]|] == ',';
      assert forall j :: 0 <= j < |parts[0]| ==> s[j] == parts[0][j];
      assert IndexOf(s, ',') == |parts[0]|;
      assert s[..|parts[0]|] == parts[0];
      assert s[|parts[0]| + 1..] == tail;
      JoinSplitAll(parts[1..]);
      assert parts == [parts[0]] + parts[1..];
    }
  }

  lemma {:induction false} AllEmptyJoin(parts: seq<string>)
    requires forall k :: 0 <= k < |parts| ==> parts[k] == ""
    ensures AllCommas(Join(parts))
  {
    if |parts| > 1 {
      AllEmptyJoin(parts[1..]);
    }
  }

  /** Joining a list whose parts from `n` on are empty: the join of the first `n`, then commas. */
  lemma {:induction false} TrailingJoin(parts: seq<string>, n: nat)
    requires 1 <= n <= |parts|
    requires forall k :: n <= k < |parts| ==> parts[k] == ""
    ensures StartsWith(Join(parts), Join(parts[..n]))
    ensures AllCommas(Join(parts)[|Join(parts[..n])|..])
  {
    if n == |parts| {
      assert parts[..n] == parts;
    } else if n == 1 {
      AllEmptyJoin(parts[1..]);
      assert parts[..1] == [parts[0]];
    } else {
      TrailingJoin(parts[1..], n - 1);
      assert parts[..n][1..] == parts[1..][..n - 1];
    }
  }

  /**
   * Round trip: a non-empty list of comma-free strings whose last element is not empty and
   * whose join is not blank comes back unchanged through both maps.
   */
  lemma {:induction false} MapRoundTrip(parts: seq<string>)
    requires |parts| > 0 && parts[|parts| - 1] != ""
    requires forall k :: 0 <= k < |parts| ==> ',' !in parts[k]
    requires IsNotBlank(Join(parts))
    ensures MapFromString(MapToString(Some(parts))) == Some(parts)
  {
    var s := Join(parts);
    JoinSplitAll(parts);
  }
}
