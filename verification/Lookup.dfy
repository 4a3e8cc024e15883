/** internal/manifest and the fold of internal/api/list.go: versioned entries and pruning. */
module Lookup {
  import opened Base
  import opened Foreign
  import opened Protocol
  import opened Versions
  import opened Retention

  type Entries = map<string, ManifestEntry>

  /** Entries sit under their own FileID, FileIDs are UUIDs, and no path has a version twice. */
  ghost predicate Valid(es: Entries) {
    && (forall id :: id in es ==> es[id].fileId == id && IsUuid(id))
    && (forall a, b :: a in es && b in es && a != b && es[a].path == es[b].path ==>
          VersionOf(es[a]) != VersionOf(es[b]))
  }

  ghost function OfPath(es: Entries, path: string): set<string> {
    set id | id in es && es[id].path == path
  }

  // ---- Looking versions up, in whatever order the map is iterated ----------

  ghost predicate IsLatest(es: Entries, path: string, id: string) {
    id in es && es[id].path == path
    && forall o :: o in es && es[o].path == path ==> VersionOf(es[o]) <= VersionOf(es[id])
  }

  lemma LatestIsUnique(es: Entries, path: string, a: string, b: string)
    requires Valid(es) && IsLatest(es, path, a) && IsLatest(es, path, b)
    ensures a == b
  {
  }

  method Latest(es: Entries, path: string) returns (best: Option<ManifestEntry>)
    requires Valid(es)
    ensures best.None? <==> OfPath(es, path) == {}
    ensures best.Some? ==> best.value.fileId in es && best.value == es[best.value.fileId]
                           && IsLatest(es, path, best.value.fileId)
  {
    best := None;
    var rest := es.Keys;
    while rest != {}
      invariant rest <= es.Keys
      invariant best.None? ==> forall id :: id in es && id !in rest ==> es[id].path != path
      invariant best.Some? ==> best.value.fileId in es && best.value == es[best.value.fileId] && best.value.path == path
      invariant best.Some? ==>
        forall id :: id in es && id !in rest && es[id].path == path ==> VersionOf(es[id]) <= VersionOf(best.value)
      decreases |rest|
    {
      var id :| id in rest;
      rest := rest - {id};
      var e := es[id];
      if e.path == path && (best.None? || VersionOf(e) > VersionOf(best.value)) {
        best := Some(e);
      }
    }
    if best.Some? {
      assert best.value.fileId in OfPath(es, path);
    }
  }

  /** `out` lists each entry of the path once. */
  ghost predicate Enumerates(es: Entries, path: string, out: seq<ManifestEntry>) {
    && (forall i :: 0 <= i < |out| ==> out[i].fileId in OfPath(es, path) && out[i] == es[out[i].fileId])
    && (forall i, j :: 0 <= i < j < |out| ==> out[i].fileId != out[j].fileId)
    && (forall id :: id in OfPath(es, path) ==> es[id] in out)
  }

  /** Enumerates, as far as the entries outside `rest` go. */
  ghost predicate Collected(es: Entries, path: string, out: seq<ManifestEntry>, rest: set<string>) {
    && (forall i :: 0 <= i < |out| ==> out[i].fileId in OfPath(es, path) - rest && out[i] == es[out[i].fileId])
    && (forall i, j :: 0 <= i < j < |out| ==> out[i].fileId != out[j].fileId)
    && (forall id :: id in OfPath(es, path) - rest ==> es[id] in out)
  }

  lemma CollectMore(es: Entries, path: string, out: seq<ManifestEntry>, rest: set<string>, id: string)
    requires Valid(es) && Collected(es, path, out, rest) && id in rest && id in es
    ensures Collected(es, path, if es[id].path == path then out + [es[id]] else out, rest - {id})
  {
  }

  method Collect(es: Entries, path: string) returns (out: seq<ManifestEntry>)
    requires Valid(es)
    ensures Enumerates(es, path, out)
  {
    out := [];
    var rest := es.Keys;
    while rest != {}
      invariant rest <= es.Keys
      invariant Collected(es, path, out, rest)
      decreases |rest|
    {
      var id :| id in rest;
      CollectMore(es, path, out, rest, id);
      rest := rest - {id};
      if es[id].path == path {
        out := out + [es[id]];
      }
    }
  }

  /** Sorting keeps the enumeration, and makes it strictly ascending. */
  lemma SortedEnumeration(es: Entries, path: string, s: seq<ManifestEntry>)
    requires Valid(es) && Enumerates(es, path, s)
    ensures Enumerates(es, path, Sort(s)) && StrictlySorted(Sort(s))
  {
    SortSorts(s);
    SortMembers(s);
    var t := Sort(s);
    assert Distinct(s);
    forall i, j | 0 <= i < j < |t| ensures t[i].fileId != t[j].fileId && VersionOf(t[i]) < VersionOf(t[j]) {
      MembersDiffer(es, path, s, t[i], t[j]);
    }
    forall i | 0 <= i < |t| ensures t[i].fileId in OfPath(es, path) && t[i] == es[t[i].fileId] {
      assert t[i] in s;
    }
  }

  lemma MembersDiffer(es: Entries, path: string, s: seq<ManifestEntry>, x: ManifestEntry, y: ManifestEntry)
    requires Valid(es) && Enumerates(es, path, s) && x in s && y in s && x != y
    ensures x.fileId != y.fileId && VersionOf(x) != VersionOf(y)
  {
    var i, j :| 0 <= i < |s| && 0 <= j < |s| && s[i] == x && s[j] == y;
  }

  method ListVersions(es: Entries, path: string) returns (out: seq<ManifestEntry>)
    requires Valid(es)
    ensures Enumerates(es, path, out) && StrictlySorted(out)
  {
    var found := Collect(es, path);
    var a := new ManifestEntry[|found|](i requires 0 <= i < |found| => found[i]);
    assert a[..] == found;
    SortByVersion(a);
    SortedEnumeration(es, path, found);
    out := a[..];
  }

  /** The last of ListVersions is the one Latest returns. */
  lemma LastListedIsLatest(es: Entries, path: string, out: seq<ManifestEntry>)
    requires Valid(es) && Enumerates(es, path, out) && StrictlySorted(out) && OfPath(es, path) != {}
    ensures out != [] && IsLatest(es, path, out[|out| - 1].fileId)
  {
    var id :| id in OfPath(es, path);
    assert es[id] in out;
    forall o | o in es && es[o].path == path
      ensures VersionOf(es[o]) <= VersionOf(out[|out| - 1])
    {
      assert o in OfPath(es, path);
      var k :| 0 <= k < |out| && out[k] == es[o];
    }
  }

  /** `all` is Manifest.All: every entry, in any order. */
  ghost predicate ListsAll(es: Entries, all: seq<ManifestEntry>) {
    && (forall i :: 0 <= i < |all| ==> all[i].fileId in es && es[all[i].fileId] == all[i])
    && (forall id :: id in es ==> es[id] in all)
  }

  /** After the first i entries: each seen path has a highest entry so far. */
  ghost predicate Folded(es: Entries, all: seq<ManifestEntry>, i: nat, latest: map<string, ManifestEntry>)
    requires i <= |all|
  {
    && (forall j :: 0 <= j < i ==> all[j].path in latest && VersionOf(all[j]) <= VersionOf(latest[all[j].path]))
    && (forall path :: path in latest ==>
          latest[path].path == path && latest[path].fileId in es && es[latest[path].fileId] == latest[path])
  }

  ghost predicate IsLatestMap(es: Entries, latest: map<string, ManifestEntry>) {
    && (forall path :: path in latest <==> OfPath(es, path) != {})
    && (forall path :: path in latest ==>
          latest[path].fileId in es && es[latest[path].fileId] == latest[path] && IsLatest(es, path, latest[path].fileId))
  }

  lemma FoldedIsLatest(es: Entries, all: seq<ManifestEntry>, latest: map<string, ManifestEntry>)
    requires Valid(es) && ListsAll(es, all) && Folded(es, all, |all|, latest)
    ensures IsLatestMap(es, latest)
  {
    forall path | path in latest ensures IsLatest(es, path, latest[path].fileId) && OfPath(es, path) != {} {
      assert latest[path].fileId in OfPath(es, path);
      forall o | o in es && es[o].path == path ensures VersionOf(es[o]) <= VersionOf(latest[path]) {
        var k :| 0 <= k < |all| && all[k] == es[o];
      }
    }
    forall path | OfPath(es, path) != {} ensures path in latest {
      var id :| id in OfPath(es, path);
      var k :| 0 <= k < |all| && all[k] == es[id];
    }
  }

  /** The raw numbers ListFiles compares order entries as VersionOf does. */
  lemma RawOrder(x: ManifestEntry, y: ManifestEntry)
    requires x.version <= y.version
    ensures VersionOf(x) <= VersionOf(y)
  {
  }

  lemma FoldReplaces(es: Entries, all: seq<ManifestEntry>, i: nat, latest: map<string, ManifestEntry>)
    requires ListsAll(es, all) && i < |all| && Folded(es, all, i, latest)
    requires all[i].path in latest ==> all[i].version > latest[all[i].path].version
    ensures Folded(es, all, i + 1, latest[all[i].path := all[i]])
  {
    if all[i].path in latest {
      RawOrder(latest[all[i].path], all[i]);
    }
  }

  lemma FoldKeeps(es: Entries, all: seq<ManifestEntry>, i: nat, latest: map<string, ManifestEntry>)
    requires ListsAll(es, all) && i < |all| && Folded(es, all, i, latest)
    requires all[i].path in latest && all[i].version <= latest[all[i].path].version
    ensures Folded(es, all, i + 1, latest)
  {
    RawOrder(all[i], latest[all[i].path]);
  }

  /** The fold of ListFiles: it compares raw version numbers, not VersionOf. */
  method LatestPerPath(all: seq<ManifestEntry>, ghost es: Entries) returns (latest: map<string, ManifestEntry>)
    requires Valid(es) && ListsAll(es, all)
    ensures IsLatestMap(es, latest)
  {
    latest := map[];
    for i := 0 to |all|
      invariant Folded(es, all, i, latest)
    {
      var e := all[i];
      if e.path !in latest || e.version > latest[e.path].version {
        FoldReplaces(es, all, i, latest);
        latest := latest[e.path := e];
      } else {
        FoldKeeps(es, all, i, latest);
      }
    }
    FoldedIsLatest(es, all, latest);
  }

  // ---- What a pruning keeps, said without lists ----------------------------

  ghost predicate Kept(es: Entries, tier: Tiering, id: string)
    requires id in es
  {
    || IsLatest(es, es[id].path, id)
    || tier(es[id]).KeepAll?
    || forall o :: (o in es && es[o].path == es[id].path && VersionOf(es[o]) > VersionOf(es[id])
                    && !IsLatest(es, es[id].path, o)) ==> tier(es[o]) != tier(es[id])
  }

  /** The kept versions of the same path above this one. */
  ghost function KeptAboveIt(es: Entries, tier: Tiering, id: string): set<string>
    requires id in es
  {
    set o | o in es && es[o].path == es[id].path && VersionOf(es[o]) > VersionOf(es[id]) && Kept(es, tier, o)
  }

  /** Kept by its tier and among the `max` highest of those (max <= 0: no cap). */
  ghost predicate Survives(es: Entries, tier: Tiering, max: int, id: string)
    requires id in es
  {
    Kept(es, tier, id) && (max > 0 ==> |KeptAboveIt(es, tier, id)| < max)
  }

  ghost function Pruned(es: Entries, tier: Tiering, max: int): Entries {
    map id | id in es && Survives(es, tier, max, id) :: es[id]
  }

  /** Position in the ascending list and rank in the path say the same. */
  lemma KeptMatches(es: Entries, path: string, vs: seq<ManifestEntry>, tier: Tiering, i: nat)
    requires Valid(es) && Enumerates(es, path, vs) && StrictlySorted(vs) && i < |vs|
    ensures KeepsAt(vs, tier, i) <==> Kept(es, tier, vs[i].fileId)
  {
    hide Valid, Enumerates, StrictlySorted, IsLatest;
    Listed(es, path, vs, i);
    OnlyLastIsLatest(es, path, vs, i);
    if i < |vs| - 1 && !tier(vs[i]).KeepAll? {
      if KeepsAt(vs, tier, i) {
        forall o | o in es && es[o].path == path && VersionOf(es[o]) > VersionOf(vs[i]) && !IsLatest(es, path, o)
          ensures tier(es[o]) != tier(vs[i])
        {
          var j := PlaceOf(es, path, vs, i, o);
        }
      }
      if Kept(es, tier, vs[i].fileId) {
        forall j | i < j < |vs| - 1 ensures tier(vs[j]) != tier(vs[i]) {
          Listed(es, path, vs, j);
          OnlyLastIsLatest(es, path, vs, j);
          Ascending(vs, i, j);
        }
      }
    }
  }

  lemma Ascending(vs: seq<ManifestEntry>, i: nat, j: nat)
    requires StrictlySorted(vs) && i < j < |vs|
    ensures VersionOf(vs[i]) < VersionOf(vs[j])
  {
  }

  lemma OnlyLastIsLatest(es: Entries, path: string, vs: seq<ManifestEntry>, j: nat)
    requires Valid(es) && Enumerates(es, path, vs) && StrictlySorted(vs) && j < |vs|
    ensures IsLatest(es, path, vs[j].fileId) <==> j == |vs| - 1
  {
    Listed(es, path, vs, j);
    assert vs[j].fileId in OfPath(es, path);
    LastListedIsLatest(es, path, vs);
    if IsLatest(es, path, vs[j].fileId) {
      LatestIsUnique(es, path, vs[j].fileId, vs[|vs| - 1].fileId);
    }
  }

  /** Where a higher version of the path that is not the latest stands in the list. */
  lemma PlaceOf(es: Entries, path: string, vs: seq<ManifestEntry>, i: nat, o: string) returns (j: nat)
    requires Valid(es) && Enumerates(es, path, vs) && StrictlySorted(vs) && i < |vs|
    requires o in es && es[o].path == path && VersionOf(es[o]) > VersionOf(vs[i]) && !IsLatest(es, path, o)
    ensures i < j < |vs| - 1 && vs[j] == es[o]
  {
    assert o in OfPath(es, path);
    j :| 0 <= j < |vs| && vs[j] == es[o];
    OnlyLastIsLatest(es, path, vs, j);
  }

  lemma Listed(es: Entries, path: string, vs: seq<ManifestEntry>, i: nat)
    requires Enumerates(es, path, vs) && i < |vs|
    ensures vs[i].fileId in es && es[vs[i].fileId] == vs[i] && vs[i].path == path
  {
  }

  lemma AboveInList(es: Entries, path: string, vs: seq<ManifestEntry>, tier: Tiering, i: nat, j: nat)
    requires Valid(es) && Enumerates(es, path, vs) && StrictlySorted(vs) && i < |vs| && j < |vs|
    ensures vs[i].fileId in es
    ensures vs[j].fileId in KeptAboveIt(es, tier, vs[i].fileId) <==> i < j && KeepsAt(vs, tier, j)
  {
    Listed(es, path, vs, i);
    Listed(es, path, vs, j);
    KeptMatches(es, path, vs, tier, j);
    assert i < j <==> VersionOf(vs[j]) > VersionOf(vs[i]);
  }

  lemma RankMember(es: Entries, path: string, vs: seq<ManifestEntry>, tier: Tiering, i: nat, o: string)
    requires Valid(es) && Enumerates(es, path, vs) && StrictlySorted(vs) && i < |vs|
    ensures vs[i].fileId in es
    ensures o in KeptAboveIt(es, tier, vs[i].fileId) <==> o in KeptIds(vs, tier, i + 1)
  {
    hide Kept;
    hide KeepsAt;
    hide StrictlySorted;
    KeptIdsMember(vs, tier, i + 1, o);
    Listed(es, path, vs, i);
    if o in KeptAboveIt(es, tier, vs[i].fileId) {
      assert o in OfPath(es, path);
      var j :| 0 <= j < |vs| && vs[j] == es[o];
      Listed(es, path, vs, j);
      AboveInList(es, path, vs, tier, i, j);
    }
    if o in KeptIds(vs, tier, i + 1) {
      var j :| i + 1 <= j < |vs| && KeepsAt(vs, tier, j) && vs[j].fileId == o;
      AboveInList(es, path, vs, tier, i, j);
    }
  }

  lemma RankSets(es: Entries, path: string, vs: seq<ManifestEntry>, tier: Tiering, i: nat)
    requires Valid(es) && Enumerates(es, path, vs) && StrictlySorted(vs) && i < |vs|
    ensures vs[i].fileId in es
    ensures KeptAboveIt(es, tier, vs[i].fileId) == KeptIds(vs, tier, i + 1)
  {
    hide *;
    Listed(es, path, vs, i);
    forall o ensures o in KeptAboveIt(es, tier, vs[i].fileId) <==> o in KeptIds(vs, tier, i + 1) {
      RankMember(es, path, vs, tier, i, o);
    }
  }

  lemma RankMatches(es: Entries, path: string, vs: seq<ManifestEntry>, tier: Tiering, i: nat)
    requires Valid(es) && Enumerates(es, path, vs) && StrictlySorted(vs) && i < |vs|
    ensures vs[i].fileId in es
    ensures |KeptAboveIt(es, tier, vs[i].fileId)| == |KeptFrom(vs, tier, i + 1)|
  {
    KeptCount(vs, tier, i + 1);
    RankSets(es, path, vs, tier, i);
  }

  /** What selectVersionsToKeep keeps of a path is what survives. */
  lemma SelectedSurvives(es: Entries, path: string, vs: seq<ManifestEntry>, tier: Tiering, max: int, i: nat)
    requires Valid(es) && Enumerates(es, path, vs) && StrictlySorted(vs) && i < |vs|
    ensures vs[i] in Selected(vs, tier, max) <==> Survives(es, tier, max, vs[i].fileId)
  {
    SelectedExactly(vs, tier, max, i);
    KeptMatches(es, path, vs, tier, i);
    RankMatches(es, path, vs, tier, i);
  }
}
