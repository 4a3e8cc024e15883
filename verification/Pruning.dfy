/** internal/manifest: Upsert and PruneVersions, and what holds over every run of them. */
module Pruning {
  import opened Base
  import opened Foreign
  import opened Protocol
  import opened Versions
  import opened Retention
  import opened Lookup
  import opened Policies

  // ---- One pruning ---------------------------------------------------------

  lemma {:induction false} HighestExists(es: Entries, ids: set<string>) returns (top: string)
    requires ids != {} && ids <= es.Keys
    ensures top in ids && forall o :: o in ids ==> VersionOf(es[o]) <= VersionOf(es[top])
    decreases |ids|
  {
    top :| top in ids;
    var rest := ids - {top};
    if rest != {} {
      var t := HighestExists(es, rest);
      if VersionOf(es[t]) > VersionOf(es[top]) {
        top := t;
      }
    }
  }

  lemma {:induction false} LowestExists(es: Entries, ids: set<string>) returns (low: string)
    requires ids != {} && ids <= es.Keys
    ensures low in ids && forall o :: o in ids ==> VersionOf(es[low]) <= VersionOf(es[o])
    decreases |ids|
  {
    low :| low in ids;
    var rest := ids - {low};
    if rest != {} {
      var t := LowestExists(es, rest);
      if VersionOf(es[t]) < VersionOf(es[low]) {
        low := t;
      }
    }
  }

  lemma LatestExists(es: Entries, path: string) returns (id: string)
    requires OfPath(es, path) != {}
    ensures IsLatest(es, path, id)
  {
    id := HighestExists(es, OfPath(es, path));
    forall o | o in es && es[o].path == path ensures VersionOf(es[o]) <= VersionOf(es[id]) {
      assert o in OfPath(es, path);
    }
  }

  lemma LatestSurvives(es: Entries, tier: Tiering, max: int, path: string, id: string)
    requires IsLatest(es, path, id)
    ensures Survives(es, tier, max, id)
  {
    assert KeptAboveIt(es, tier, id) == {};
  }

  lemma PrunedStaysValid(es: Entries, tier: Tiering, max: int)
    requires Valid(es)
    ensures Valid(Pruned(es, tier, max))
  {
    hide Survives;
  }

  /** Pruning never changes which version is the latest. */
  lemma PruneKeepsLatest(es: Entries, tier: Tiering, max: int, path: string, id: string)
    requires Valid(es)
    ensures IsLatest(es, path, id) <==> IsLatest(Pruned(es, tier, max), path, id)
  {
    hide Survives;
    hide Valid;
    var kept := Pruned(es, tier, max);
    if IsLatest(es, path, id) {
      LatestSurvives(es, tier, max, path, id);
    }
    if IsLatest(kept, path, id) {
      assert id in OfPath(es, path);
      var top := LatestExists(es, path);
      LatestSurvives(es, tier, max, path, top);
      assert top in kept;
      assert VersionOf(es[top]) <= VersionOf(es[id]);
    }
  }

  /** Every path that had an entry keeps at least one. */
  lemma PruneLeavesOne(es: Entries, tier: Tiering, max: int, path: string)
    requires Valid(es) && OfPath(es, path) != {}
    ensures OfPath(Pruned(es, tier, max), path) != {}
  {
    var top := LatestExists(es, path);
    LatestSurvives(es, tier, max, path, top);
    assert top in OfPath(Pruned(es, tier, max), path);
  }

  /** Under a cap no path keeps more than `max` entries. */
  lemma PruneRespectsCap(es: Entries, tier: Tiering, max: int, path: string)
    requires Valid(es) && max > 0
    ensures |OfPath(Pruned(es, tier, max), path)| <= max
  {
    var kept := Pruned(es, tier, max);
    var ids := OfPath(kept, path);
    if ids != {} {
      var low := LowestExists(kept, ids);
      assert Survives(es, tier, max, low);
      AboveTheLowest(es, tier, max, path, low);
      SubsetSize(ids - {low}, KeptAboveIt(es, tier, low));
      assert ids == (ids - {low}) + {low};
    }
  }

  lemma AboveTheLowest(es: Entries, tier: Tiering, max: int, path: string, low: string)
    requires Valid(es) && low in OfPath(Pruned(es, tier, max), path)
    requires forall o :: o in OfPath(Pruned(es, tier, max), path) ==> VersionOf(es[low]) <= VersionOf(es[o])
    ensures OfPath(Pruned(es, tier, max), path) - {low} <= KeptAboveIt(es, tier, low)
  {
    forall o | o in OfPath(Pruned(es, tier, max), path) - {low} ensures o in KeptAboveIt(es, tier, low) {
      assert Survives(es, tier, max, o);
      assert VersionOf(es[o]) != VersionOf(es[low]);
    }
  }

  lemma SubsetSize<T>(a: set<T>, b: set<T>)
    requires a <= b
    ensures |a| <= |b|
  {
    assert b == a + (b - a);
  }

  /** The two manifests hold the same entries of one path. */
  ghost predicate AgreeOn(a: Entries, b: Entries, path: string) {
    OfPath(a, path) == OfPath(b, path) && forall id :: id in OfPath(a, path) ==> a[id] == b[id]
  }

  lemma AgreeLatest(a: Entries, b: Entries, path: string, id: string)
    requires AgreeOn(a, b, path) && IsLatest(a, path, id)
    ensures IsLatest(b, path, id)
  {
    assert id in OfPath(a, path);
    forall o | o in b && b[o].path == path ensures VersionOf(b[o]) <= VersionOf(b[id]) {
      assert o in OfPath(b, path);
    }
  }

  lemma AgreeKept(a: Entries, b: Entries, tier: Tiering, path: string, id: string)
    requires AgreeOn(a, b, path) && id in OfPath(a, path) && Kept(a, tier, id)
    ensures id in OfPath(b, path) && Kept(b, tier, id)
  {
    assert id in OfPath(b, path);
    if IsLatest(a, path, id) {
      AgreeLatest(a, b, path, id);
    } else if !tier(a[id]).KeepAll? {
      forall o | o in b && b[o].path == path && VersionOf(b[o]) > VersionOf(b[id]) && !IsLatest(b, path, o)
        ensures tier(b[o]) != tier(b[id])
      {
        assert o in OfPath(b, path);
        if IsLatest(a, path, o) {
          AgreeLatest(a, b, path, o);
        }
      }
    }
  }

  /** What survives of a path does not depend on any other path. */
  lemma PruneIsPerPath(a: Entries, b: Entries, tier: Tiering, max: int, path: string, id: string)
    requires AgreeOn(a, b, path) && id in OfPath(a, path)
    ensures id in b && (Survives(a, tier, max, id) <==> Survives(b, tier, max, id))
  {
    assert id in OfPath(b, path);
    SurvivesAlike(a, b, tier, max, path, id);
    SurvivesAlike(b, a, tier, max, path, id);
  }

  lemma SurvivesAlike(a: Entries, b: Entries, tier: Tiering, max: int, path: string, id: string)
    requires AgreeOn(a, b, path) && id in OfPath(a, path) && id in OfPath(b, path)
    ensures Survives(a, tier, max, id) ==> Survives(b, tier, max, id)
  {
    if Survives(a, tier, max, id) {
      AgreeKept(a, b, tier, path, id);
      forall o | o in KeptAboveIt(b, tier, id) ensures o in KeptAboveIt(a, tier, id) {
        assert o in OfPath(b, path);
        AgreeKept(b, a, tier, path, o);
      }
      SubsetSize(KeptAboveIt(b, tier, id), KeptAboveIt(a, tier, id));
    }
  }

  /** A survivor is still kept among the survivors. */
  lemma KeptAmongSurvivors(es: Entries, tier: Tiering, max: int, id: string)
    requires Valid(es) && id in Pruned(es, tier, max)
    ensures Kept(Pruned(es, tier, max), tier, id)
  {
    hide Valid;
    var kept, path := Pruned(es, tier, max), es[id].path;
    PruneKeepsLatest(es, tier, max, path, id);
    if !IsLatest(es, path, id) && !tier(es[id]).KeepAll? {
      forall o | o in kept && kept[o].path == path && VersionOf(kept[o]) > VersionOf(kept[id]) && !IsLatest(kept, path, o)
        ensures tier(kept[o]) != tier(kept[id])
      {
        PruneKeepsLatest(es, tier, max, path, o);
      }
    }
  }

  lemma SurvivesAgain(es: Entries, tier: Tiering, max: int, id: string)
    requires Valid(es) && id in Pruned(es, tier, max)
    ensures Survives(Pruned(es, tier, max), tier, max, id)
  {
    var kept := Pruned(es, tier, max);
    KeptAmongSurvivors(es, tier, max, id);
    SurvivorsAbove(es, tier, max, id);
    SubsetSize(KeptAboveIt(kept, tier, id), KeptAboveIt(es, tier, id));
  }

  lemma SurvivorsAbove(es: Entries, tier: Tiering, max: int, id: string)
    requires id in Pruned(es, tier, max)
    ensures KeptAboveIt(Pruned(es, tier, max), tier, id) <= KeptAboveIt(es, tier, id)
  {
    hide Kept;
  }

  /** Pruning twice at one instant with one policy is pruning once. */
  lemma PruneIsIdempotent(es: Entries, tier: Tiering, max: int)
    requires Valid(es)
    ensures Pruned(Pruned(es, tier, max), tier, max) == Pruned(es, tier, max)
  {
    forall id | id in Pruned(es, tier, max) ensures Survives(Pruned(es, tier, max), tier, max, id) {
      SurvivesAgain(es, tier, max, id);
    }
    hide Survives;
  }

  // ---- The loops of PruneVersions ------------------------------------------

  ghost predicate Grouped(es: Entries, byPath: map<string, seq<ManifestEntry>>, rest: set<string>) {
    && (forall p :: p in byPath ==> Collected(es, p, byPath[p], rest))
    && (forall p :: OfPath(es, p) - rest != {} ==> p in byPath)
  }

  lemma GroupMore(es: Entries, byPath: map<string, seq<ManifestEntry>>, rest: set<string>, id: string)
    requires Valid(es) && Grouped(es, byPath, rest) && id in rest && id in es
    ensures var p := es[id].path;
      Grouped(es, byPath[p := (if p in byPath then byPath[p] else []) + [es[id]]], rest - {id})
  {
    var p := es[id].path;
    var before := if p in byPath then byPath[p] else [];
    assert Collected(es, p, before, rest) by {
      if p !in byPath { assert OfPath(es, p) - rest == {}; }
    }
    CollectMore(es, p, before, rest, id);
    forall q | q in byPath && q != p ensures Collected(es, q, byPath[q], rest - {id}) {
      CollectMore(es, q, byPath[q], rest, id);
    }
    forall q | OfPath(es, q) - (rest - {id}) != {} && q != p ensures q in byPath {
      assert OfPath(es, q) - rest == OfPath(es, q) - (rest - {id});
    }
  }

  method GroupByPath(es: Entries) returns (byPath: map<string, seq<ManifestEntry>>)
    requires Valid(es)
    ensures forall p :: p in byPath ==> Enumerates(es, p, byPath[p])
    ensures forall id :: id in es ==> es[id].path in byPath
  {
    hide Grouped, Valid, Enumerates;
    byPath := map[];
    var rest := es.Keys;
    NothingGrouped(es);
    while rest != {}
      invariant rest <= es.Keys && Grouped(es, byPath, rest)
      decreases |rest|
    {
      var id :| id in rest;
      GroupMore(es, byPath, rest, id);
      rest := rest - {id};
      var p := es[id].path;
      byPath := byPath[p := (if p in byPath then byPath[p] else []) + [es[id]]];
    }
    AllGrouped(es, byPath);
  }

  lemma NothingGrouped(es: Entries)
    ensures Grouped(es, map[], es.Keys)
  {
  }

  lemma AllGrouped(es: Entries, byPath: map<string, seq<ManifestEntry>>)
    requires Grouped(es, byPath, {})
    ensures forall p :: p in byPath ==> Enumerates(es, p, byPath[p])
    ensures forall id :: id in es ==> es[id].path in byPath
  {
    forall id | id in es ensures es[id].path in byPath {
      assert id in OfPath(es, es[id].path) - {};
    }
  }

  /** The entries of `vs` that a pruning of `es` drops. */
  ghost function Dropped(es: Entries, tier: Tiering, max: int, path: string): set<string> {
    set id | id in OfPath(es, path) && !Survives(es, tier, max, id)
  }

  ghost predicate NoRepeat(s: seq<string>) {
    forall i, j :: 0 <= i < j < |s| ==> s[i] != s[j]
  }

  method PrunePath(ghost es: Entries, ghost path: string, group: seq<ManifestEntry>, tier: Tiering, max: int)
    returns (dropped: seq<string>)
    requires Valid(es) && TieringOk(tier) && Enumerates(es, path, group)
    ensures NoRepeat(dropped) && (set x | x in dropped) == Dropped(es, tier, max, path)
  {
    var versions := new ManifestEntry[|group|](i requires 0 <= i < |group| => group[i]);
    assert versions[..] == group;
    SortByVersion(versions);
    var vs := versions[..];
    SortedEnumeration(es, path, group);
    forall i | 0 <= i < |vs| ensures IsUuid(vs[i].fileId) {
      Listed(es, path, vs, i);
    }
    var keep := SelectVersionsToKeep(vs, tier, max);
    dropped := DropUnkept(es, path, vs, tier, max, keep);
  }

  method DropUnkept(ghost es: Entries, ghost path: string, vs: seq<ManifestEntry>, ghost tier: Tiering, ghost max: int,
                    keep: seq<ManifestEntry>)
    returns (dropped: seq<string>)
    requires Valid(es) && Enumerates(es, path, vs) && StrictlySorted(vs) && keep == Selected(vs, tier, max)
    ensures NoRepeat(dropped) && (set x | x in dropped) == Dropped(es, tier, max, path)
  {
    var keepSet := set e | e in keep :: e.fileId;
    dropped := [];
    for i := 0 to |vs|
      invariant dropped == DropIds(es, vs, tier, max, i)
    {
      KeepSetExact(es, path, vs, tier, max, keepSet, i);
      if vs[i].fileId !in keepSet {
        dropped := dropped + [vs[i].fileId];
      }
    }
    DroppedExact(es, path, vs, tier, max);
  }

  ghost predicate SurvivesAt(es: Entries, vs: seq<ManifestEntry>, tier: Tiering, max: int, i: nat)
    requires i < |vs|
  {
    vs[i].fileId in es && Survives(es, tier, max, vs[i].fileId)
  }

  /** Looking a FileID up among the kept ones is asking whether it survives. */
  lemma KeepSetExact(es: Entries, path: string, vs: seq<ManifestEntry>, tier: Tiering, max: int, keepSet: set<string>, i: nat)
    requires Valid(es) && Enumerates(es, path, vs) && StrictlySorted(vs) && i < |vs|
    requires keepSet == set e | e in Selected(vs, tier, max) :: e.fileId
    ensures vs[i].fileId in keepSet <==> SurvivesAt(es, vs, tier, max, i)
  {
    hide Survives;
    SelectedSurvives(es, path, vs, tier, max, i);
    Listed(es, path, vs, i);
    if vs[i].fileId in keepSet {
      var e :| e in Selected(vs, tier, max) && e.fileId == vs[i].fileId;
      assert e in KeptFrom(vs, tier, 0);
      var j := KeptMember(vs, tier, 0, e);
      assert j == i;
    }
  }

  ghost function DropIds(es: Entries, vs: seq<ManifestEntry>, tier: Tiering, max: int, i: nat): seq<string>
    requires i <= |vs|
  {
    if i == 0 then []
    else DropIds(es, vs, tier, max, i - 1) + if SurvivesAt(es, vs, tier, max, i - 1) then [] else [vs[i - 1].fileId]
  }

  lemma {:induction false} DropIdsMember(es: Entries, vs: seq<ManifestEntry>, tier: Tiering, max: int, i: nat, x: string)
    requires i <= |vs|
    ensures x in DropIds(es, vs, tier, max, i) <==>
      exists j :: 0 <= j < i && vs[j].fileId == x && !SurvivesAt(es, vs, tier, max, j)
  {
    hide SurvivesAt;
    if i > 0 {
      DropIdsMember(es, vs, tier, max, i - 1, x);
      if vs[i - 1].fileId == x && !SurvivesAt(es, vs, tier, max, i - 1) {
        assert 0 <= i - 1 < i;
      }
    }
  }

  lemma {:induction false} DropIdsNoRepeat(es: Entries, vs: seq<ManifestEntry>, tier: Tiering, max: int, i: nat)
    requires i <= |vs| && forall a, b :: 0 <= a < b < |vs| ==> vs[a].fileId != vs[b].fileId
    ensures NoRepeat(DropIds(es, vs, tier, max, i))
  {
    hide SurvivesAt;
    if i > 0 {
      DropIdsNoRepeat(es, vs, tier, max, i - 1);
      DropIdsMember(es, vs, tier, max, i - 1, vs[i - 1].fileId);
    }
  }

  lemma DroppedExact(es: Entries, path: string, vs: seq<ManifestEntry>, tier: Tiering, max: int)
    requires Valid(es) && Enumerates(es, path, vs)
    ensures var dropped := DropIds(es, vs, tier, max, |vs|);
      NoRepeat(dropped) && (set x | x in dropped) == Dropped(es, tier, max, path)
  {
    hide Survives;
    var dropped := DropIds(es, vs, tier, max, |vs|);
    DropIdsNoRepeat(es, vs, tier, max, |vs|);
    forall x ensures x in dropped <==> x in Dropped(es, tier, max, path) {
      DropIdsMember(es, vs, tier, max, |vs|, x);
      if x in dropped {
        var j :| 0 <= j < |vs| && vs[j].fileId == x && !SurvivesAt(es, vs, tier, max, j);
        Listed(es, path, vs, j);
      }
      if x in Dropped(es, tier, max, path) {
        var j :| 0 <= j < |vs| && vs[j] == es[x];
        InOwnSlot(es, path, vs, j, x);
        assert !SurvivesAt(es, vs, tier, max, j);
      }
    }
  }

  lemma InOwnSlot(es: Entries, path: string, vs: seq<ManifestEntry>, j: nat, x: string)
    requires Valid(es) && Enumerates(es, path, vs) && x in OfPath(es, path) && j < |vs| && vs[j] == es[x]
    ensures vs[j].fileId == x
  {
    assert vs[j] == es[vs[j].fileId];
  }

  // ---- The manifest object -------------------------------------------------

  /** The number Upsert gives: one above every version of the path, 1 for a new path. */
  ghost predicate IsNextVersion(es: Entries, path: string, v: int) {
    && v >= 1
    && (forall id :: id in es && es[id].path == path ==> VersionOf(es[id]) < v)
    && (v == 1 || exists id :: id in es && es[id].path == path && VersionOf(es[id]) == v - 1)
  }

  class Manifest {
    var entries: Entries

    constructor ()
      ensures entries == map[]
    {
      entries := map[];
    }

    method NextVersion(path: string) returns (next: int)
      ensures IsNextVersion(entries, path, next)
    {
      next := 1;
      var rest := entries.Keys;
      while rest != {}
        invariant rest <= entries.Keys && next >= 1
        invariant forall id :: id in entries && id !in rest && entries[id].path == path ==> VersionOf(entries[id]) < next
        invariant next == 1 || exists id :: id in entries && entries[id].path == path && VersionOf(entries[id]) == next - 1
        decreases |rest|
      {
        var id :| id in rest;
        rest := rest - {id};
        if entries[id].path == path && VersionOf(entries[id]) >= next {
          next := VersionOf(entries[id]) + 1;
        }
      }
    }

    /** A new entry under a fresh FileID; the file must still be there to stat. */
    method Upsert(path: string, hash: bytes, size: nat, scheme: Scheme, shards: seq<ShardLocation>,
                  fileId: string, modified: Option<Time>, now: Time)
      returns (r: Result<ManifestEntry>)
      requires Valid(entries) && IsUuid(fileId) && fileId !in entries
      modifies this
      ensures Valid(entries)
      ensures modified.None? ==> r.Err? && entries == old(entries)
      ensures modified.Some? ==> r.Ok? && IsNextVersion(old(entries), path, r.value.version)
      ensures modified.Some? ==>
        r.value == ManifestEntry(fileId, path, Hex(hash), size, modified.value, scheme, shards, r.value.version, now, false)
      ensures modified.Some? ==> entries == old(entries)[fileId := r.value]
    {
      if modified.None? {
        return Err("stat");
      }
      var next := NextVersion(path);
      var entry := ManifestEntry(fileId, path, Hex(hash), size, modified.value, scheme, shards, next, now, false);
      UpsertStaysValid(entries, entry);
      entries := entries[fileId := entry];
      r := Ok(entry);
    }

    /** Survivors stay, the rest is removed and its FileIDs returned once each. */
    method PruneVersions(policy: Policy, now: Time, cal: Calendar) returns (pruned: seq<string>)
      requires Valid(entries) && CalendarOk(cal)
      modifies this
      ensures Valid(entries)
      ensures entries == Pruned(old(entries), TierOf(policy, now, cal), policy.maxVersions)
      ensures InDays(policy) ==>
        forall id :: id in old(entries) ==> (id in entries <==> Stays(old(entries), policy, now, cal, id))
      ensures NoRepeat(pruned) && (set id | id in pruned) == old(entries).Keys - entries.Keys
    {
      var tier, max := TierOf(policy, now, cal), policy.maxVersions;
      TierOfOk(policy, now, cal);
      ghost var es := entries;
      var byPath := GroupByPath(entries);
      var rest := byPath.Keys;
      pruned := [];
      while rest != {}
        invariant rest <= byPath.Keys
        invariant entries == HalfPruned(es, tier, max, rest)
        invariant NoRepeat(pruned) && (set id | id in pruned) == es.Keys - entries.Keys
        decreases |rest|
      {
        var path :| path in rest;
        var dropped := PrunePath(es, path, byPath[path], tier, max);
        DropPath(es, tier, max, rest, path, pruned, dropped);
        entries := entries - set id | id in dropped;
        pruned := pruned + dropped;
        rest := rest - {path};
      }
      AllPruned(es, tier, max);
      PrunedStaysValid(es, tier, max);
      if InDays(policy) {
        forall id | id in es ensures id in entries <==> Stays(es, policy, now, cal, id) {
          PruneLaw(es, policy, now, cal, id);
        }
      }
    }
  }

  lemma UpsertStaysValid(es: Entries, e: ManifestEntry)
    requires Valid(es) && IsUuid(e.fileId) && e.fileId !in es && IsNextVersion(es, e.path, e.version)
    ensures Valid(es[e.fileId := e])
  {
  }

  /** Pruned except for the paths still to be done. */
  ghost function HalfPruned(es: Entries, tier: Tiering, max: int, rest: set<string>): Entries {
    map id | id in es && (es[id].path in rest || Survives(es, tier, max, id)) :: es[id]
  }

  lemma AllPruned(es: Entries, tier: Tiering, max: int)
    ensures HalfPruned(es, tier, max, {}) == Pruned(es, tier, max)
  {
    hide Survives;
  }

  lemma DropPath(es: Entries, tier: Tiering, max: int, rest: set<string>, path: string, pruned: seq<string>, dropped: seq<string>)
    requires path in rest && NoRepeat(pruned) && NoRepeat(dropped)
    requires (set id | id in pruned) == es.Keys - HalfPruned(es, tier, max, rest).Keys
    requires (set id | id in dropped) == Dropped(es, tier, max, path)
    ensures HalfPruned(es, tier, max, rest) - (set id | id in dropped) == HalfPruned(es, tier, max, rest - {path})
    ensures NoRepeat(pruned + dropped)
    ensures (set id | id in pruned + dropped) == es.Keys - HalfPruned(es, tier, max, rest - {path}).Keys
  {
    hide Survives;
    var a, b := set id | id in pruned, set id | id in dropped;
    forall id ensures id in HalfPruned(es, tier, max, rest - {path}) <==> id in HalfPruned(es, tier, max, rest) && id !in b {
    }
    assert a !! b;
    assert forall i :: 0 <= i < |pruned| ==> pruned[i] in a;
    assert forall i :: 0 <= i < |dropped| ==> dropped[i] in b;
    assert (set id | id in pruned + dropped) == a + b;
  }
}
