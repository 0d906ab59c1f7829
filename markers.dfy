/** The marker collection as a value: the Marker record, the search view and
    the index filter used by deletion. */
module Markers {
  import opened JsText

  /** A `[latitude, longitude]` pair; the coordinates are never computed with. */
  datatype Position = Position(lat: real, lng: real)

  /** One named point on the map. */
  datatype Marker = Marker(position: Position, name: string)

  /** The search test applied to each marker: its lower-cased name includes
      the lower-cased query. */
  predicate Matches(m: Marker, query: string) {
    Contains(Lower(m.name), Lower(query))
  }

  /** `markers.filter(m => Matches(m, query))`, keeping the original order. */
  function Filtered(ms: seq<Marker>, query: string): (r: seq<Marker>)
    ensures |r| <= |ms|
    decreases |ms|
  {
    if ms == [] then []
    else (if Matches(ms[0], query) then [ms[0]] else []) + Filtered(ms[1..], query)
  }

  /** `r` can be obtained from `s` by deleting entries, without reordering. */
  predicate IsSubsequence<T(==)>(r: seq<T>, s: seq<T>)
    decreases |s|
  {
    if r == [] then true
    else if s == [] then false
    else (r[0] == s[0] && IsSubsequence(r[1..], s[1..])) || IsSubsequence(r, s[1..])
  }

  /** The search view keeps the order of the collection. */
  lemma {:induction false} FilteredIsSubsequence(ms: seq<Marker>, query: string)
    ensures IsSubsequence(Filtered(ms, query), ms)
    decreases |ms|
  {
    if ms != [] {
      var rest := Filtered(ms[1..], query);
      FilteredIsSubsequence(ms[1..], query);
      if Matches(ms[0], query) {
        assert Filtered(ms, query) == [ms[0]] + rest;
        assert ([ms[0]] + rest)[1..] == rest;
      } else {
        assert Filtered(ms, query) == rest;
      }
    }
  }

  /** The search view holds every matching entry as often as the collection
      does, and no other entry. */
  lemma {:induction false} FilteredCount(ms: seq<Marker>, query: string, m: Marker)
    ensures multiset(Filtered(ms, query))[m] == if Matches(m, query) then multiset(ms)[m] else 0
    decreases |ms|
  {
    if ms != [] {
      FilteredCount(ms[1..], query, m);
      assert ms == [ms[0]] + ms[1..];
      assert multiset(ms) == multiset([ms[0]]) + multiset(ms[1..]);
    }
  }

  /** An entry is in the search view exactly when it is in the collection and
      matches the query. */
  lemma {:induction false} FilteredMembership(ms: seq<Marker>, query: string, m: Marker)
    ensures m in Filtered(ms, query) <==> m in ms && Matches(m, query)
  {
    FilteredCount(ms, query, m);
  }

  /** The search view is the whole collection exactly when every entry matches. */
  lemma {:induction false} FilteredIsAllIff(ms: seq<Marker>, query: string)
    ensures Filtered(ms, query) == ms <==> forall i :: 0 <= i < |ms| ==> Matches(ms[i], query)
    decreases |ms|
  {
    if Filtered(ms, query) == ms {
      forall i | 0 <= i < |ms| ensures Matches(ms[i], query) {
        FilteredMembership(ms, query, ms[i]);
      }
    }
    if ms != [] && forall i :: 0 <= i < |ms| ==> Matches(ms[i], query) {
      assert forall i :: 0 <= i < |ms[1..]| ==> Matches(ms[1..][i], query) by {
        forall i | 0 <= i < |ms[1..]| ensures Matches(ms[1..][i], query) {
          assert ms[1..][i] == ms[i + 1];
        }
      }
      FilteredIsAllIff(ms[1..], query);
      assert Matches(ms[0], query);
      assert ms == [ms[0]] + ms[1..];
    }
  }

  /** The search ignores ASCII case in the query: two queries that lower-case
      to the same string show the same markers. */
  lemma {:induction false} FilteredCaseInsensitive(ms: seq<Marker>, q1: string, q2: string)
    requires Lower(q1) == Lower(q2)
    ensures Filtered(ms, q1) == Filtered(ms, q2)
    decreases |ms|
  {
    if ms != [] {
      FilteredCaseInsensitive(ms[1..], q1, q2);
    }
  }

  /** Typing the query in capitals or in small letters shows the same markers. */
  lemma FilteredSameForLoweredQuery(ms: seq<Marker>, query: string)
    ensures Filtered(ms, query) == Filtered(ms, Lower(query))
  {
    LowerIdempotent(query);
    FilteredCaseInsensitive(ms, query, Lower(query));
  }

  /** With an empty search box every marker is shown, so a position in the
      search view is the same position in the collection. */
  lemma IndexSpacesAgreeOnEmptyQuery(ms: seq<Marker>, i: int)
    requires 0 <= i < |ms|
    ensures |Filtered(ms, "")| == |ms| && Filtered(ms, "")[i] == ms[i]
  {
    FilteredIsAllIff(ms, "");
  }

  /** With a non-empty query the positions differ: searching "b" in
      `["A", "B"]` shows "B" at position 0, where the collection holds "A". */
  lemma IndexSpacesDisagreeExample(p: Position)
    ensures var ms := [Marker(p, "A"), Marker(p, "B")];
            Filtered(ms, "b") == [ms[1]] && Filtered(ms, "b")[0] != ms[0]
  {
    var ms := [Marker(p, "A"), Marker(p, "B")];
    assert Lower("A") == "a" && Lower("B") == "b" && Lower("b") == "b";
    assert !Contains("a", "b") by {
      assert "b"[0] != "a"[0];
      assert "a"[1..] == [];
    }
    assert Contains("b", "b");
    assert ms[1..][1..] == [];
  }

  /** `markers.filter((_, i) => i !== index)`: drop the entry at `index`, if any. */
  function RemoveAt(ms: seq<Marker>, index: int): (r: seq<Marker>)
    ensures 0 <= index < |ms| ==> r == ms[..index] + ms[index + 1..]
    ensures !(0 <= index < |ms|) ==> r == ms
    ensures |r| == if 0 <= index < |ms| then |ms| - 1 else |ms|
    decreases |ms|
  {
    if ms == [] then []
    else (if index == 0 then [] else [ms[0]]) + RemoveAt(ms[1..], index - 1)
  }
}
