/** internal/buddy/store.go: shards kept for buddies, each with a sidecar hash. */
module BuddyStore {
  import opened Base
  import opened Foreign
  import opened Paths

  type Files = map<string, bytes>

  /** The file system refuses p: a file stands where p needs a directory, or p is one. */
  predicate Blocked(files: Files, p: string) {
    exists q :: q in files && (Ancestor(q, p) || Ancestor(p, q))
  }

  /** PutWithHash: the shard file, then its sidecar; an unsafe or blocked name writes nothing. */
  function Stored(lib: Lib, files: Files, r: Ref, data: bytes): Option<Files> {
    if ShardPath(r).None? || Blocked(files, ShardPath(r).value) || Blocked(files, HashPath(r).value) then None
    else Some(files[ShardPath(r).value := data][HashPath(r).value := lib.sha(data)])
  }

  /** PutManifest. */
  function StoredManifest(files: Files, owner: string, data: bytes): Option<Files> {
    if !Safe(owner) || Blocked(files, ManifestPath(owner).value) then None
    else Some(files[ManifestPath(owner).value := data])
  }

  predicate Verified(lib: Lib, files: Files, r: Ref) {
    && ShardPath(r).Some? && ShardPath(r).value in files && HashPath(r).value in files
    && lib.sha(files[ShardPath(r).value]) == files[HashPath(r).value]
  }

  /** The references ListAll finds among the files of a walk. */
  function Listed(walk: seq<string>): seq<Ref> {
    if walk == [] then []
    else
      var front, last := Listed(walk[..|walk| - 1]), ParsePath(walk[|walk| - 1]);
      if last.Some? then front + [last.value] else front
  }

  /** Every file once, in whatever order the directory walk takes. */
  ghost predicate Walks(walk: seq<string>, files: Files) {
    && (forall i :: 0 <= i < |walk| ==> walk[i] in files)
    && (forall p :: p in files ==> p in walk)
    && (forall i, j :: 0 <= i < j < |walk| ==> walk[i] != walk[j])
  }

  class Store {
    const lib: Lib
    var files: Files

    constructor (lib: Lib)
      ensures this.lib == lib && files == map[]
    {
      this.lib := lib;
      files := map[];
    }

    method Get(r: Ref) returns (data: Option<bytes>)
      ensures data == if ShardPath(r).Some? && ShardPath(r).value in files then Some(files[ShardPath(r).value]) else None
    {
      var p := ShardPath(r);
      if p.None? || p.value !in files {
        return None;
      }
      return Some(files[p.value]);
    }

    method PutWithHash(r: Ref, data: bytes) returns (ok: bool)
      modifies this
      ensures ok <==> Stored(lib, old(files), r, data).Some?
      ensures files == if ok then Stored(lib, old(files), r, data).value else old(files)
    {
      var p, hp := ShardPath(r), HashPath(r);
      if p.None? || Blocked(files, p.value) || Blocked(files, hp.value) {
        return false;
      }
      files := files[p.value := data];
      files := files[hp.value := lib.sha(data)];
      ok := true;
    }

    method Verify(r: Ref) returns (ok: bool)
      ensures ok <==> Verified(lib, files, r)
      ensures ok <==> ShardPath(r).Some? && ShardPath(r).value in files && HashPath(r).value in files
                      && files[HashPath(r).value] == lib.sha(files[ShardPath(r).value])
    {
      var data := Get(r);
      if data.None? {
        return false;
      }
      var hp := HashPath(r);
      if hp.None? || hp.value !in files {
        return false;
      }
      ok := lib.sha(data.value) == files[hp.value];
    }

    /** filepath.WalkDir over the files. */
    method Walk() returns (walk: seq<string>)
      ensures Walks(walk, files)
    {
      walk := [];
      var left := files.Keys;
      while left != {}
        invariant left <= files.Keys
        invariant forall i :: 0 <= i < |walk| ==> walk[i] in files && walk[i] !in left
        invariant forall p :: p in files && p !in left ==> p in walk
        invariant forall i, j :: 0 <= i < j < |walk| ==> walk[i] != walk[j]
        decreases left
      {
        var p :| p in left;
        walk := walk + [p];
        left := left - {p};
      }
    }

    method ListAll() returns (refs: seq<Ref>, ghost walk: seq<string>)
      ensures Walks(walk, files) && refs == Listed(walk)
      ensures OwnNames(files) ==> forall r: Ref :: r in refs <==> exists p: string :: p in files && IsShard(p, r)
    {
      hide OwnNames, IsShard;
      var paths := Walk();
      walk := paths;
      refs := [];
      for i := 0 to |paths|
        invariant refs == Listed(paths[..i])
      {
        assert paths[..i + 1][..i] == paths[..i];
        var path := paths[i];
        if !HasSuffix(path, ".shard") {
          continue;
        }
        var segs := SplitPath(path);
        if |segs| != 3 || |segs[2]| < 6 {
          continue;
        }
        var n := Atoi(segs[2][..|segs[2]| - 6]);
        if n.None? {
          continue;
        }
        refs := refs + [Ref(segs[0], segs[1], n.value)];
      }
      assert paths[..|paths|] == paths;
      if OwnNames(files) {
        ListAllIsExact(walk, files);
      }
    }

    method PutManifest(owner: string, data: bytes) returns (ok: bool)
      modifies this
      ensures ok <==> StoredManifest(old(files), owner, data).Some?
      ensures files == if ok then StoredManifest(old(files), owner, data).value else old(files)
    {
      var p := ManifestPath(owner);
      if p.None? || Blocked(files, p.value) {
        return false;
      }
      files := files[p.value := data];
      ok := true;
    }

    method GetManifest(owner: string) returns (data: Option<bytes>)
      ensures data == if Safe(owner) && ManifestPath(owner).value in files then Some(files[ManifestPath(owner).value]) else None
    {
      var p := ManifestPath(owner);
      if p.None? || p.value !in files {
        return None;
      }
      return Some(files[p.value]);
    }
  }

  // ---- ListAll finds exactly the stored shards -----------------------------

  predicate IsShard(p: string, r: Ref) { Proper(r) && ShardPath(r) == Some(p) }

  predicate IsSidecar(p: string, r: Ref) { Proper(r) && HashPath(r) == Some(p) }

  /** The names this store gives to files. */
  ghost predicate OwnName(p: string) {
    || (exists r: Ref :: IsShard(p, r))
    || (exists r: Ref :: IsSidecar(p, r))
    || (exists owner: string :: ManifestPath(owner) == Some(p))
  }

  ghost predicate OwnNames(files: Files) { forall p :: p in files ==> OwnName(p) }

  /** Every write keeps the names in shape. */
  lemma WritesKeepNames(lib: Lib, files: Files, r: Ref, data: bytes, owner: string)
    requires OwnNames(files)
    ensures Proper(r) && Stored(lib, files, r, data).Some? ==> OwnNames(Stored(lib, files, r, data).value)
    ensures StoredManifest(files, owner, data).Some? ==> OwnNames(StoredManifest(files, owner, data).value)
  {
    hide ShardPath, HashPath, ManifestPath, Blocked;
    SafeHasPaths(r, owner);
    if Proper(r) {
      assert IsShard(ShardPath(r).value, r) && IsSidecar(HashPath(r).value, r);
    }
    if Safe(owner) {
      assert ManifestPath(owner) == Some(ManifestPath(owner).value);
    }
  }

  lemma SafeHasPaths(r: Ref, owner: string)
    ensures Proper(r) ==> ShardPath(r).Some? && HashPath(r).Some?
    ensures Safe(owner) ==> ManifestPath(owner).Some?
  {
  }

  /** A file of the store parses as a reference exactly when it is that reference's shard. */
  lemma ParsesIffShard(p: string, r: Ref)
    requires OwnName(p)
    ensures ParsePath(p) == Some(r) <==> IsShard(p, r)
  {
    hide ParsePath, ShardPath, HashPath, ManifestPath;
    if q: Ref :| IsShard(p, q) {
      ParseShardPath(q);
      if IsShard(p, r) {
        ParseShardPath(r);
      }
    } else {
      if q: Ref :| IsSidecar(p, q) {
        OthersAreNotListed(q, "");
      } else {
        var owner: string :| ManifestPath(owner) == Some(p);
        OthersAreNotListed(r, owner);
      }
    }
  }

  lemma {:induction false} ListedHas(walk: seq<string>, r: Ref)
    ensures r in Listed(walk) <==> exists i :: 0 <= i < |walk| && ParsePath(walk[i]) == Some(r)
  {
    hide ParsePath;
    if walk != [] {
      var n := |walk| - 1;
      ListedHas(walk[..n], r);
      assert forall i :: 0 <= i < n ==> walk[..n][i] == walk[i];
      if r in Listed(walk[..n]) {
        var i :| 0 <= i < n && ParsePath(walk[..n][i]) == Some(r);
        assert ParsePath(walk[i]) == Some(r);
      }
    }
  }

  lemma {:induction false} ListedDistinct(walk: seq<string>, files: Files)
    requires OwnNames(files) && (forall i :: 0 <= i < |walk| ==> walk[i] in files)
    requires forall i, j :: 0 <= i < j < |walk| ==> walk[i] != walk[j]
    ensures forall i, j :: 0 <= i < j < |Listed(walk)| ==> Listed(walk)[i] != Listed(walk)[j]
  {
    hide ParsePath, OwnName, IsShard;
    if walk != [] {
      var n := |walk| - 1;
      var front, last := walk[..n], ParsePath(walk[n]);
      ListedDistinct(front, files);
      if last.Some? && last.value in Listed(front) {
        ListedHas(front, last.value);
        var i :| 0 <= i < n && ParsePath(front[i]) == last;
        ParsesIffShard(front[i], last.value);
        ParsesIffShard(walk[n], last.value);
        ShardOnce(front[i], walk[n], last.value);
      }
    }
  }

  lemma ShardOnce(p: string, q: string, r: Ref)
    requires IsShard(p, r) && IsShard(q, r)
    ensures p == q
  {
  }

  /** On a store that only this program writes, ListAll returns every stored shard once
      and nothing else. */
  lemma ListAllIsExact(walk: seq<string>, files: Files)
    requires OwnNames(files) && Walks(walk, files)
    ensures forall r: Ref :: r in Listed(walk) <==> exists p: string :: p in files && IsShard(p, r)
    ensures forall i, j :: 0 <= i < j < |Listed(walk)| ==> Listed(walk)[i] != Listed(walk)[j]
  {
    hide ParsePath, OwnName, IsShard;
    ListedDistinct(walk, files);
    forall r: Ref ensures r in Listed(walk) <==> exists p: string :: p in files && IsShard(p, r) {
      ListedHas(walk, r);
      if r in Listed(walk) {
        var i :| 0 <= i < |walk| && ParsePath(walk[i]) == Some(r);
        ParsesIffShard(walk[i], r);
      }
      if p: string :| p in files && IsShard(p, r) {
        ParsesIffShard(p, r);
        var i :| 0 <= i < |walk| && walk[i] == p;
      }
    }
  }

  // ---- When the file system refuses a write --------------------------------

  /** Names of this store have two components (manifests) or three (shards and sidecars). */
  lemma NameSegments(q: string)
    requires OwnName(q)
    ensures q != "" && q[|q| - 1] != '/' && 2 <= |Segments(q)| <= 3
    ensures |Segments(q)| == 2 ==> Safe(Segments(q)[0]) && Segments(q)[1] == MANIFEST && ManifestPath(Segments(q)[0]) == Some(q)
    ensures |Segments(q)| == 3 ==> exists r: Ref ::
      (IsShard(q, r) || IsSidecar(q, r)) && Segments(q)[..2] == [r.owner, r.fileId]
  {
    hide Segments, ShardPath, HashPath, ManifestPath;
    if r: Ref :| IsShard(q, r) {
      ShardSegments(r);
      NoFinalSlash(r, "");
    } else {
      if r: Ref :| IsSidecar(q, r) {
        HashSegments(r);
        NoFinalSlash(r, "");
      } else {
        var owner: string :| ManifestPath(owner) == Some(q);
        ManifestSegments(owner);
        NoFinalSlash(Ref("", "", 0), owner);
      }
    }
  }

  /** A file of the store is in the way of a three-component name only as its owner's manifest. */
  lemma InTheWay(files: Files, p: string, owner: string, fileId: string)
    requires OwnNames(files) && p != "" && p[|p| - 1] != '/' && Safe(owner)
    requires |Segments(p)| == 3 && Segments(p)[..2] == [owner, fileId]
    ensures Blocked(files, p) ==> fileId == MANIFEST && ManifestPath(owner).value in files
  {
    hide Segments, OwnName, ManifestPath;
    if Blocked(files, p) {
      var q :| q in files && (Ancestor(q, p) || Ancestor(p, q));
      NameSegments(q);
      if Ancestor(q, p) {
        AncestorIsShorter(q, p);
        assert Segments(p)[..2][..|Segments(q)|] == Segments(p)[..|Segments(q)|];
      } else {
        AncestorIsShorter(p, q);
      }
    }
  }

  /** On a store this program writes, a shard is refused if and only if its FileID is the
      manifest's name and its owner's manifest is there. */
  lemma ShardBlockedIff(files: Files, r: Ref)
    requires OwnNames(files) && Proper(r)
    ensures Blocked(files, ShardPath(r).value) <==> r.fileId == MANIFEST && ManifestPath(r.owner).value in files
    ensures Blocked(files, HashPath(r).value) <==> r.fileId == MANIFEST && ManifestPath(r.owner).value in files
  {
    hide Segments, OwnName, ManifestPath, ShardPath, HashPath, Ancestor;
    SafeHasPaths(r, r.owner);
    ShardSegments(r);
    HashSegments(r);
    NoFinalSlash(r, "");
    InTheWay(files, ShardPath(r).value, r.owner, r.fileId);
    InTheWay(files, HashPath(r).value, r.owner, r.fileId);
    if r.fileId == MANIFEST {
      ManifestIsAncestor(r);
    }
  }

  /** A manifest is refused if and only if a shard of its owner has the manifest's name as FileID. */
  lemma ManifestBlockedIff(files: Files, owner: string)
    requires OwnNames(files) && Safe(owner)
    ensures Blocked(files, ManifestPath(owner).value) <==>
      exists p: string, r: Ref :: p in files && OfManifestName(p, r, owner)
  {
    hide Segments, OwnName, ManifestPath, ShardPath, HashPath;
    SafeHasPaths(Ref("", "", 0), owner);
    var mp := ManifestPath(owner).value;
    ManifestSegments(owner);
    NoFinalSlash(Ref("", "", 0), owner);
    if Blocked(files, mp) {
      var q :| q in files && (Ancestor(q, mp) || Ancestor(mp, q));
      NameSegments(q);
      if Ancestor(q, mp) {
        AncestorIsShorter(q, mp);
        assert false;
      }
      AncestorIsShorter(mp, q);
      var r: Ref :| (IsShard(q, r) || IsSidecar(q, r)) && Segments(q)[..2] == [r.owner, r.fileId];
      assert Segments(q)[..2] == [owner, MANIFEST];
      assert OfManifestName(q, r, owner);
    }
    if p: string, r: Ref :| p in files && OfManifestName(p, r, owner) {
      ManifestIsAncestor(r);
    }
  }

  /** p is a shard or sidecar of the owner under the manifest's name. */
  predicate OfManifestName(p: string, r: Ref, owner: string) {
    (IsShard(p, r) || IsSidecar(p, r)) && r.owner == owner && r.fileId == MANIFEST
  }

  // ---- Every store this program can produce --------------------------------

  /** Writes by handlers and revives, and damage to a file's contents. */
  datatype Op = PutOp(r: Ref, data: bytes) | ManifestOp(owner: string, data: bytes) | DamageOp(path: string, data: bytes)

  predicate OpOk(op: Op) { op.PutOp? ==> -INT64 <= op.r.index < INT64 }

  function After(lib: Lib, files: Files, op: Op): Files {
    match op
    case PutOp(r, data) => (match Stored(lib, files, r, data) case Some(f) => f case None => files)
    case ManifestOp(owner, data) => (match StoredManifest(files, owner, data) case Some(f) => f case None => files)
    case DamageOp(path, data) => if path in files then files[path := data] else files
  }

  function AfterAll(lib: Lib, ops: seq<Op>): Files {
    if ops == [] then map[] else After(lib, AfterAll(lib, ops[..|ops| - 1]), ops[|ops| - 1])
  }

  /** No manifest stands beside a shard directory of its name. */
  ghost predicate NoClash(files: Files) {
    forall p: string, r: Ref :: p in files && OfManifestName(p, r, r.owner) ==> ManifestPath(r.owner).value !in files
  }

  ghost predicate StoreOk(files: Files) { OwnNames(files) && NoClash(files) }

  lemma PutKeepsOk(lib: Lib, files: Files, r: Ref, data: bytes)
    requires StoreOk(files) && Proper(r) && Stored(lib, files, r, data).Some?
    ensures StoreOk(Stored(lib, files, r, data).value)
  {
    hide OwnName, ManifestPath, ShardPath, HashPath, Blocked;
    WritesKeepNames(lib, files, r, data, "");
    ShardBlockedIff(files, r);
    SafeHasPaths(r, r.owner);
    var files' := Stored(lib, files, r, data).value;
    forall p: string, q: Ref | p in files' && OfManifestName(p, q, q.owner) ensures ManifestPath(q.owner).value !in files' {
      SafeHasPaths(q, q.owner);
      ManifestPathsAreDistinct(r, q.owner, q.owner);
      if p !in files {
        SameName(p, q, r);
      }
    }
  }

  /** A name belongs to one reference. */
  lemma SameName(p: string, q: Ref, r: Ref)
    requires Proper(q) && Proper(r) && (ShardPath(q) == Some(p) || HashPath(q) == Some(p))
    requires ShardPath(r) == Some(p) || HashPath(r) == Some(p)
    ensures q == r
  {
    hide ShardPath, HashPath;
    PathsAreDistinct(q, r);
    PathsAreDistinct(r, q);
  }

  lemma ManifestKeepsOk(files: Files, owner: string, data: bytes)
    requires StoreOk(files) && StoredManifest(files, owner, data).Some?
    ensures StoreOk(StoredManifest(files, owner, data).value)
  {
    hide OwnName, ManifestPath, ShardPath, HashPath, Blocked;
    WritesKeepNames(TOY, files, Ref("", "", 0), data, owner);
    ManifestBlockedIff(files, owner);
    SafeHasPaths(Ref("", "", 0), owner);
    var files', mp := StoredManifest(files, owner, data).value, ManifestPath(owner).value;
    forall p: string, q: Ref | p in files' && OfManifestName(p, q, q.owner) ensures ManifestPath(q.owner).value !in files' {
      SafeHasPaths(q, q.owner);
      ManifestPathsAreDistinct(q, owner, q.owner);
      assert p in files;
    }
  }

  /** Whatever handlers and revives wrote, in any order and with any damage since, every name
      is this program's and no manifest clashes with a shard directory. */
  lemma {:induction false} EveryStoreIsOk(lib: Lib, ops: seq<Op>)
    requires forall i :: 0 <= i < |ops| ==> OpOk(ops[i])
    ensures StoreOk(AfterAll(lib, ops))
  {
    if ops != [] {
      var before, op := AfterAll(lib, ops[..|ops| - 1]), ops[|ops| - 1];
      EveryStoreIsOk(lib, ops[..|ops| - 1]);
      OpKeepsOk(lib, before, op);
    }
  }

  lemma OpKeepsOk(lib: Lib, files: Files, op: Op)
    requires StoreOk(files) && OpOk(op)
    ensures StoreOk(After(lib, files, op))
  {
    hide StoreOk;
    match op
    case PutOp(r, data) =>
      if Stored(lib, files, r, data).Some? {
        PutKeepsOk(lib, files, r, data);
      }
    case ManifestOp(owner, data) =>
      if StoredManifest(files, owner, data).Some? {
        ManifestKeepsOk(files, owner, data);
      }
    case DamageOp(path, data) =>
      if path in files {
        DamageKeepsOk(files, path, data);
      }
  }

  lemma DamageKeepsOk(files: Files, path: string, data: bytes)
    requires StoreOk(files) && path in files
    ensures StoreOk(files[path := data])
  {
    hide OwnName, OfManifestName;
  }

  /** So ListAll is exact on every such store. */
  lemma EveryListingIsExact(lib: Lib, ops: seq<Op>, walk: seq<string>)
    requires (forall i :: 0 <= i < |ops| ==> OpOk(ops[i])) && Walks(walk, AfterAll(lib, ops))
    ensures forall r: Ref :: r in Listed(walk) <==> exists p: string :: p in AfterAll(lib, ops) && IsShard(p, r)
    ensures forall i, j :: 0 <= i < j < |Listed(walk)| ==> Listed(walk)[i] != Listed(walk)[j]
  {
    EveryStoreIsOk(lib, ops);
    ListAllIsExact(walk, AfterAll(lib, ops));
  }

  // ---- What a write does to other shards -----------------------------------

  /** A stored shard verifies, and no other shard of the store is touched. */
  lemma StoreVerifiesAndSpares(lib: Lib, files: Files, r: Ref, data: bytes, other: Ref)
    requires Proper(r) && Proper(other) && Stored(lib, files, r, data).Some?
    ensures var after := Stored(lib, files, r, data).value;
      && Verified(lib, after, r) && after[ShardPath(r).value] == data
      && (other != r ==> SameShard(files, after, other) && Verified(lib, files, other) == Verified(lib, after, other))
  {
    hide ShardPath, HashPath, Blocked;
    SafeHasPaths(r, "");
    SafeHasPaths(other, "");
    PathsAreDistinct(r, r);
    PathsAreDistinct(r, other);
    PathsAreDistinct(other, r);
  }

  /** A stored shard whose file was then overwritten verifies if and only if the new bytes have the old digest. */
  lemma DamageIsSeen(lib: Lib, files: Files, r: Ref, data: bytes, bad: bytes)
    requires Proper(r) && Stored(lib, files, r, data).Some?
    ensures var damaged := After(lib, Stored(lib, files, r, data).value, DamageOp(ShardPath(r).value, bad));
      Verified(lib, damaged, r) <==> lib.sha(bad) == lib.sha(data)
  {
    PathsAreDistinct(r, r);
    hide FileName, Blocked;
  }

  predicate SameFile(a: Files, b: Files, p: string) {
    (p in a <==> p in b) && (p in a ==> a[p] == b[p])
  }

  predicate SameShard(a: Files, b: Files, r: Ref)
    requires Proper(r)
  {
    SameFile(a, b, ShardPath(r).value) && SameFile(a, b, HashPath(r).value)
  }
}
