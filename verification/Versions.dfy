/** Version numbers and the in-place insertion sort of internal/manifest. */
module Versions {
  import opened Protocol

  /** Version 0 marks an entry from before versioning and counts as 1. */
  function VersionOf(e: ManifestEntry): int {
    if e.version == 0 then 1 else e.version
  }

  function Insert(s: seq<ManifestEntry>, e: ManifestEntry): seq<ManifestEntry> {
    if s == [] || VersionOf(e) >= VersionOf(s[|s| - 1]) then s + [e]
    else Insert(s[..|s| - 1], e) + [s[|s| - 1]]
  }

  function Sort(s: seq<ManifestEntry>): seq<ManifestEntry> {
    if s == [] then [] else Insert(Sort(s[..|s| - 1]), s[|s| - 1])
  }

  predicate Sorted(s: seq<ManifestEntry>) {
    forall i, j :: 0 <= i < j < |s| ==> VersionOf(s[i]) <= VersionOf(s[j])
  }

  predicate StrictlySorted(s: seq<ManifestEntry>) {
    forall i, j :: 0 <= i < j < |s| ==> VersionOf(s[i]) < VersionOf(s[j])
  }

  lemma {:induction false} InsertPermutes(s: seq<ManifestEntry>, e: ManifestEntry)
    ensures multiset(Insert(s, e)) == multiset(s) + multiset{e}
  {
    if s != [] && VersionOf(e) < VersionOf(s[|s| - 1]) {
      InsertPermutes(s[..|s| - 1], e);
      assert s == s[..|s| - 1] + [s[|s| - 1]];
    }
  }

  /** Nothing in the result is above a bound on the input. */
  lemma {:induction false} InsertBelow(s: seq<ManifestEntry>, e: ManifestEntry, v: int)
    requires VersionOf(e) <= v && forall i :: 0 <= i < |s| ==> VersionOf(s[i]) <= v
    ensures forall i :: 0 <= i < |Insert(s, e)| ==> VersionOf(Insert(s, e)[i]) <= v
  {
    if s != [] && VersionOf(e) < VersionOf(s[|s| - 1]) {
      InsertBelow(s[..|s| - 1], e, v);
    }
  }

  lemma {:induction false} InsertSorts(s: seq<ManifestEntry>, e: ManifestEntry)
    requires Sorted(s)
    ensures Sorted(Insert(s, e))
  {
    if s != [] && VersionOf(e) < VersionOf(s[|s| - 1]) {
      InsertSorts(s[..|s| - 1], e);
      InsertBelow(s[..|s| - 1], e, VersionOf(s[|s| - 1]));
    }
  }

  lemma {:induction false} SortSorts(s: seq<ManifestEntry>)
    ensures Sorted(Sort(s)) && multiset(Sort(s)) == multiset(s)
  {
    if s != [] {
      SortSorts(s[..|s| - 1]);
      InsertSorts(Sort(s[..|s| - 1]), s[|s| - 1]);
      InsertPermutes(Sort(s[..|s| - 1]), s[|s| - 1]);
      assert s == s[..|s| - 1] + [s[|s| - 1]];
    }
  }

  predicate Distinct(s: seq<ManifestEntry>) {
    forall i, j :: 0 <= i < j < |s| ==> s[i] != s[j]
  }

  lemma {:induction false} InsertMembers(s: seq<ManifestEntry>, e: ManifestEntry)
    ensures forall x :: x in Insert(s, e) <==> x in s || x == e
  {
    if s != [] && VersionOf(e) < VersionOf(s[|s| - 1]) {
      InsertMembers(s[..|s| - 1], e);
      assert s == s[..|s| - 1] + [s[|s| - 1]];
    }
  }

  lemma {:induction false} InsertDistinct(s: seq<ManifestEntry>, e: ManifestEntry)
    requires Distinct(s) && e !in s
    ensures Distinct(Insert(s, e))
  {
    if s != [] && VersionOf(e) < VersionOf(s[|s| - 1]) {
      var front, last := s[..|s| - 1], s[|s| - 1];
      InsertDistinct(front, e);
      InsertMembers(front, e);
      assert last !in front && last in s;
      assert last !in Insert(front, e);
    }
  }

  /** Sorting neither loses, adds nor repeats an entry. */
  lemma {:induction false} SortMembers(s: seq<ManifestEntry>)
    ensures forall x :: x in Sort(s) <==> x in s
    ensures Distinct(s) ==> Distinct(Sort(s))
  {
    if s != [] {
      var front, last := s[..|s| - 1], s[|s| - 1];
      SortMembers(front);
      InsertMembers(Sort(front), last);
      assert s == front + [last];
      if Distinct(s) {
        InsertDistinct(Sort(front), last);
      }
    }
  }

  lemma {:induction false} InsertFront(s: seq<ManifestEntry>, e: ManifestEntry)
    requires forall i :: 0 <= i < |s| ==> VersionOf(e) < VersionOf(s[i])
    ensures Insert(s, e) == [e] + s
  {
    if s != [] {
      InsertFront(s[..|s| - 1], e);
      assert [e] + s == ([e] + s[..|s| - 1]) + [s[|s| - 1]];
    }
  }

  function Reverse<T>(s: seq<T>): seq<T> {
    if s == [] then [] else Reverse(s[1..]) + [s[0]]
  }

  /** Sorting a strictly descending list turns it round. */
  lemma {:induction false} SortDescending(s: seq<ManifestEntry>)
    requires StrictlySorted(s)
    ensures Sort(Reverse(s)) == s
  {
    if s != [] {
      var r := Reverse(s[1..]);
      SortDescending(s[1..]);
      assert (r + [s[0]])[..|r|] == r;
      InsertFront(s[1..], s[0]);
      assert s == [s[0]] + s[1..];
    }
  }

  /** sortByVersion: swap each entry left past the larger ones. */
  method SortByVersion(entries: array<ManifestEntry>)
    modifies entries
    ensures entries[..] == Sort(old(entries[..]))
  {
    ghost var orig := entries[..];
    var i := 0;
    while i < entries.Length
      invariant i <= entries.Length
      invariant entries[..i] == Sort(orig[..i])
      invariant entries[i..] == orig[i..]
    {
      SinkLeft(entries, i);
      assert orig[..i + 1][..i] == orig[..i];
      i := i + 1;
    }
    assert entries[..i] == entries[..] && orig[..i] == orig;
  }

  ghost function Swapped(s: seq<ManifestEntry>, j: nat): seq<ManifestEntry>
    requires 0 < j < |s|
  {
    s[j := s[j - 1]][j - 1 := s[j]]
  }

  /** One swap to the left is one step of the insertion. */
  lemma SwapIsInsertStep(s: seq<ManifestEntry>, j: nat, i: nat)
    requires 0 < j <= i < |s| && VersionOf(s[j]) < VersionOf(s[j - 1])
    ensures var t := Swapped(s, j);
      Insert(t[..j - 1], s[j]) + t[j..i + 1] == Insert(s[..j], s[j]) + s[j + 1..i + 1]
  {
    var t := Swapped(s, j);
    assert s[..j][..j - 1] == s[..j - 1] && t[..j - 1] == s[..j - 1];
    assert t[j..i + 1] == [s[j - 1]] + s[j + 1..i + 1];
  }

  /** The inner loop: entry i moves to its place among the first i. */
  method SinkLeft(entries: array<ManifestEntry>, i: nat)
    requires i < entries.Length
    modifies entries
    ensures entries[..i + 1] == Insert(old(entries[..i]), old(entries[i]))
    ensures entries[i + 1..] == old(entries[i + 1..])
  {
    ghost var s, e, rest := entries[..], entries[i], entries[i + 1..];
    ghost var goal := Insert(s[..i], e);
    var j := i;
    while j > 0 && VersionOf(entries[j]) < VersionOf(entries[j - 1])
      invariant 0 <= j <= i && |s| == entries.Length && entries[..] == s && s[j] == e
      invariant Insert(s[..j], e) + s[j + 1..i + 1] == goal
      invariant s[i + 1..] == rest
    {
      SwapIsInsertStep(s, j, i);
      entries[j], entries[j - 1] := entries[j - 1], entries[j];
      s := Swapped(s, j);
      j := j - 1;
    }
    assert s[..i + 1] == (s[..j] + [e]) + s[j + 1..i + 1];
    assert entries[..i + 1] == s[..i + 1] && entries[i + 1..] == s[i + 1..];
  }
}
