/** Every run of Upsert and PruneVersions, starting from an empty manifest. */
module ManifestRuns {
  import opened Base
  import opened Protocol
  import opened Versions
  import opened Retention
  import opened Lookup
  import opened Pruning

  datatype Step = Upsert(entry: ManifestEntry) | Prune(policy: Policy, now: Time, cal: Calendar)

  ghost predicate Next(es: Entries, step: Step, es': Entries) {
    match step
    case Upsert(e) =>
      IsUuid(e.fileId) && e.fileId !in es && IsNextVersion(es, e.path, e.version) && es' == es[e.fileId := e]
    case Prune(p, now, cal) =>
      CalendarOk(cal) && es' == Pruned(es, TierOf(p, now, cal), p.maxVersions)
  }

  ghost predicate IsRun(states: seq<Entries>, steps: seq<Step>) {
    && |states| == |steps| + 1 && states[0] == map[]
    && forall i :: 0 <= i < |steps| ==> Next(states[i], steps[i], states[i + 1])
  }

  lemma StepStaysValid(es: Entries, step: Step, es': Entries)
    requires Valid(es) && Next(es, step, es')
    ensures Valid(es')
  {
    match step
    case Upsert(e) => UpsertStaysValid(es, e);
    case Prune(p, now, cal) => PrunedStaysValid(es, TierOf(p, now, cal), p.maxVersions);
  }

  /** Versions of a path stay distinct in every reachable manifest. */
  lemma {:induction false} RunsStayValid(states: seq<Entries>, steps: seq<Step>, i: nat)
    requires IsRun(states, steps) && i < |states|
    ensures Valid(states[i])
  {
    if i > 0 {
      RunsStayValid(states, steps, i - 1);
      StepStaysValid(states[i - 1], steps[i - 1], states[i]);
    }
  }

  /** Some entry of the path has at least this version. */
  ghost predicate Reaches(es: Entries, path: string, v: int) {
    exists id :: id in es && es[id].path == path && VersionOf(es[id]) >= v
  }

  lemma StepKeepsReach(es: Entries, step: Step, es': Entries, path: string, v: int)
    requires Valid(es) && Next(es, step, es') && Reaches(es, path, v)
    ensures Reaches(es', path, v)
  {
    var id :| id in es && es[id].path == path && VersionOf(es[id]) >= v;
    match step
    case Upsert(e) => assert id in es' && es'[id] == es[id];
    case Prune(p, now, cal) =>
      assert id in OfPath(es, path);
      var top := LatestExists(es, path);
      LatestSurvives(es, TierOf(p, now, cal), p.maxVersions, path, top);
      assert top in es' && es'[top] == es[top];
  }

  lemma {:induction false} RunKeepsReach(states: seq<Entries>, steps: seq<Step>, i: nat, j: nat, path: string, v: int)
    requires IsRun(states, steps) && i <= j < |states| && Reaches(states[i], path, v)
    ensures Reaches(states[j], path, v)
  {
    if i < j {
      RunKeepsReach(states, steps, i, j - 1, path, v);
      RunsStayValid(states, steps, j - 1);
      StepKeepsReach(states[j - 1], steps[j - 1], states[j], path, v);
    }
  }

  /** Whatever was pruned in between, a later version of a path has a higher number,
      so no number is ever given twice. */
  lemma VersionsNeverReused(states: seq<Entries>, steps: seq<Step>, i: nat, j: nat)
    requires IsRun(states, steps) && i < j < |steps|
    requires steps[i].Upsert? && steps[j].Upsert? && steps[i].entry.path == steps[j].entry.path
    ensures steps[i].entry.version < steps[j].entry.version
  {
    var e := steps[i].entry;
    assert Next(states[i], steps[i], states[i + 1]);
    assert e.fileId in states[i + 1] && states[i + 1][e.fileId] == e;
    assert Reaches(states[i + 1], e.path, e.version);
    RunKeepsReach(states, steps, i + 1, j, e.path, e.version);
    assert Next(states[j], steps[j], states[j + 1]);
  }

  /** Latest, the last of ListVersions and the entry of ListFiles are one entry in every
      reachable manifest, whatever order each of them met the entries in. */
  lemma LookupsAgree(states: seq<Entries>, steps: seq<Step>, i: nat, path: string, best: string,
                     listed: seq<ManifestEntry>, latest: map<string, ManifestEntry>)
    requires IsRun(states, steps) && i < |states|
    requires IsLatest(states[i], path, best)
    requires Enumerates(states[i], path, listed) && StrictlySorted(listed)
    requires IsLatestMap(states[i], latest)
    ensures listed != [] && listed[|listed| - 1] == states[i][best]
    ensures path in latest && latest[path] == states[i][best]
  {
    var es := states[i];
    RunsStayValid(states, steps, i);
    assert best in OfPath(es, path);
    LastListedIsLatest(es, path, listed);
    LatestIsUnique(es, path, best, listed[|listed| - 1].fileId);
    LatestIsUnique(es, path, best, latest[path].fileId);
  }

  /** Remove is different: the next number stays fresh if and only if the removed entry
      was not the latest. */
  lemma RemoveFreshIffNotLatest(es: Entries, id: string, v: int)
    requires Valid(es) && id in es && VersionOf(es[id]) >= 1
    requires IsNextVersion(es - {id}, es[id].path, v)
    ensures v > VersionOf(es[id]) <==> !IsLatest(es, es[id].path, id)
  {
    var es', path := es - {id}, es[id].path;
    if IsLatest(es, path, id) {
      if v > 1 {
        var o :| o in es' && es'[o].path == path && VersionOf(es'[o]) == v - 1;
        assert VersionOf(es[o]) < VersionOf(es[id]);
      }
    } else {
      var o :| o in es && es[o].path == path && VersionOf(es[o]) > VersionOf(es[id]);
      assert o in es';
    }
  }

  /** ImportEntry keeps a manifest valid if and only if the version is new to its path. */
  lemma ImportValidIffNewVersion(es: Entries, e: ManifestEntry)
    requires Valid(es) && IsUuid(e.fileId) && e.fileId !in es
    ensures Valid(es[e.fileId := e]) <==>
      forall id :: id in es && es[id].path == e.path ==> VersionOf(es[id]) != VersionOf(e)
  {
    var es' := es[e.fileId := e];
    if Valid(es') {
      forall id | id in es && es[id].path == e.path ensures VersionOf(es[id]) != VersionOf(e) {
        assert id in es' && es'[id] == es[id];
      }
    }
  }

  /** Removing the only version of a path and backing the file up again gives its number a second time. */
  lemma RemovedNumberComesBack(e: ManifestEntry, id: string)
    requires IsUuid(e.fileId) && IsUuid(id) && e.version == 1
    ensures Next(map[], Upsert(e), map[e.fileId := e])
    ensures var again, removed := e.(fileId := id), map[e.fileId := e] - {e.fileId};
      Next(removed, Upsert(again), removed[id := again]) && again.path == e.path && again.version == e.version
  {
    hide IsUuid;
    var removed := map[e.fileId := e] - {e.fileId};
    assert removed == map[];
  }

  /** Importing a copy of the only version of a path under another FileID gives the path two entries with one number. */
  lemma ImportedNumberIsDoubled(e: ManifestEntry, id: string)
    requires IsUuid(e.fileId) && IsUuid(id) && id != e.fileId && e.version == 1
    ensures Next(map[], Upsert(e), map[e.fileId := e])
    ensures var es := map[e.fileId := e][id := e.(fileId := id)];
      |OfPath(es, e.path)| == 2 && VersionOf(es[id]) == VersionOf(es[e.fileId]) && !Valid(es)
  {
    hide IsUuid;
    var es := map[e.fileId := e][id := e.(fileId := id)];
    assert OfPath(es, e.path) == {e.fileId, id};
    assert es[id].path == es[e.fileId].path;
  }

  /** An entry from before versioning, with version 0, counts as version 1: the next one is 2. */
  lemma LegacyEntryCountsAsOne(e: ManifestEntry, v: int)
    requires e.version == 0
    ensures IsNextVersion(map[e.fileId := e], e.path, v) <==> v == 2
  {
    var es := map[e.fileId := e];
    assert e.fileId in es && es[e.fileId].path == e.path;
  }
}
