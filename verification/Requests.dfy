/** Which manifest entry a restore request names, and what the request then gives. */
module Requests {
  import opened Base
  import opened Foreign
  import opened Protocol
  import opened Versions
  import opened Lookup
  import opened Restore
  import opened Recovery
  import opened Repository
  import Storage

  /** A FileID, a path with a version, or a path alone, which means its latest version. */
  datatype Query = Query(fileId: string, path: string, version: int)

  /** The entry a query names. */
  ghost predicate Names(es: Entries, q: Query, id: string) {
    && id in es
    && if q.fileId != "" then id == q.fileId
       else q.path != "" && es[id].path == q.path
            && if q.version > 0 then es[id].version == q.version else IsLatest(es, q.path, id)
  }

  lemma NamesAtMostOne(es: Entries, q: Query, a: string, b: string)
    requires Valid(es) && Names(es, q, a) && Names(es, q, b)
    ensures a == b
  {
    if q.fileId == "" && q.version > 0 {
      assert VersionOf(es[a]) == q.version == VersionOf(es[b]);
    } else if q.fileId == "" && q.version <= 0 {
      LatestIsUnique(es, q.path, a, b);
    }
  }

  /** The entry selection of Restore. */
  method ChooseEntry(es: Entries, q: Query) returns (r: Result<ManifestEntry>)
    requires Valid(es)
    ensures r.Ok? ==> r.value.fileId in es && es[r.value.fileId] == r.value && Names(es, q, r.value.fileId)
    ensures r.Err? ==> forall id :: id in es ==> !Names(es, q, id)
  {
    if q.fileId == "" && q.path == "" {
      return Err("one of FileID or FilePath is required");
    }
    if q.fileId != "" {
      r := if q.fileId in es then Ok(es[q.fileId]) else Err("file-id not found in manifest");
    } else if q.version > 0 {
      r := FindVersion(es, q);
    } else {
      var latest := Latest(es, q.path);
      if latest.None? {
        r := Err("not found in manifest");
        assert forall id :: id in es && es[id].path == q.path ==> id in OfPath(es, q.path);
      } else {
        r := Ok(latest.value);
      }
    }
  }

  method FindVersion(es: Entries, q: Query) returns (r: Result<ManifestEntry>)
    requires Valid(es) && q.fileId == "" && q.path != "" && q.version > 0
    ensures r.Ok? ==> r.value.fileId in es && es[r.value.fileId] == r.value && Names(es, q, r.value.fileId)
    ensures r.Err? ==> forall id :: id in es ==> !Names(es, q, id)
  {
    hide Valid, StrictlySorted;
    var vs := ListVersions(es, q.path);
    for i := 0 to |vs|
      invariant forall j :: 0 <= j < i ==> vs[j].version != q.version
    {
      if vs[i].version == q.version {
        assert vs[i].fileId in OfPath(es, q.path);
        return Ok(vs[i]);
      }
    }
    forall id | id in es ensures !Names(es, q, id) {
      if es[id].path == q.path {
        assert id in OfPath(es, q.path);
        assert es[id] in vs;
      }
    }
    r := Err("version not found in manifest");
  }

  /** Restore on a repository any run can reach: when the damage is tolerable it succeeds
      exactly when the query names an entry, and writes the bytes that entry was made from. */
  method RestoreFile(h: Host, ghost repo: Repo, dirs: Storage.Dirs, es: Entries, q: Query, buddies: Buddies)
    returns (r: Result<Restored>)
    requires HostOk(h) && Good(h, repo) && dirs == repo.dirs && es == repo.entries
    requires forall id :: id in es && id in repo.contents ==>
      Tolerable(h, repo.harmed, repo.contents[id]) && BuddiesHarmless(h, dirs, repo.contents[id], buddies)
    ensures r.Ok? <==> exists id :: Names(es, q, id)
    ensures r.Ok? ==> r.value.integrityPassed
    ensures forall id :: r.Ok? && Names(es, q, id) ==> id in repo.contents && r.value.output == repo.contents[id]
  {
    hide *;
    GoodMeans(h, repo);
    var chosen := ChooseEntry(es, q);
    if chosen.Err? {
      NamesOnlyEntries(es, q);
      return Err(chosen.error);
    }
    var e := chosen.value;
    ghost var content, src := repo.contents[e.fileId], Sources(dirs, buddies);
    SourcesAreHarmless(h, repo, content, buddies);
    TolerableIsRecoverable(h, repo, content, src);
    RestoresIff(h, e, content, src);
    ShapeOf(h);
    r := Restore.Restore(h.lib, h.masterKey, e, Sources(dirs, buddies));
    forall id | Names(es, q, id) ensures id == e.fileId {
      NamesAtMostOne(es, q, id, e.fileId);
    }
  }

  lemma NamesOnlyEntries(es: Entries, q: Query)
    requires forall id :: id in es ==> !Names(es, q, id)
    ensures !exists id :: Names(es, q, id)
  {
  }

  lemma ShapeOf(h: Host)
    requires HostOk(h)
    ensures RsShape(h.lib)
  {
  }
}
