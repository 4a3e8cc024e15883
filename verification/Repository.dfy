/** Every run of completed backups, part-failed backups, prunings and disk damage over one shard store. */
module Repository {
  import opened Base
  import opened Foreign
  import opened Protocol
  import opened Chunker
  import opened Versions
  import opened Retention
  import opened Lookup
  import opened Pruning
  import opened Restore
  import opened Backup
  import opened Recovery
  import Storage

  /** Shard g of a content. */
  datatype Shard = Shard(content: bytes, g: nat)

  /** `contents` is what each manifest entry was made from, and `harmed` the shards whose
      local copy was lost or damaged since it was last written; the program keeps neither. */
  datatype Repo = Repo(dirs: Storage.Dirs, entries: Entries, contents: map<string, bytes>, harmed: set<Shard>)

  const EMPTY := Repo(map[], map[], map[], {})

  datatype Event =
    | Completed(content: bytes, nonces: Nonces, entry: ManifestEntry)
    | PartFailed(content: bytes, nonces: Nonces, written: nat, debris: Option<bytes>)
    | PruneDone(policy: Policy, now: Time, cal: Calendar, ids: seq<string>)
    | Harm(content: bytes, g: nat, blob: Option<bytes>)  // the disk lost or garbled a shard

  /** Deleting the shard directories of the pruned FileIDs, one by one. */
  function DeleteAll(dirs: Storage.Dirs, ids: seq<string>): Storage.Dirs {
    if ids == [] then dirs else DeleteAll(Storage.Delete(dirs, ids[0]), ids[1..])
  }

  ghost function IdSet(ids: seq<string>): set<string> {
    set id | id in ids
  }

  /** Shards of the content below n have been written again. */
  ghost function Mended(harmed: set<Shard>, content: bytes, n: int): set<Shard> {
    set x | x in harmed && !(x.content == content && x.g < n)
  }

  /** What is left of a damaged file does not authenticate as anything but its own shard. */
  ghost predicate BlobOk(h: Host, content: bytes, g: nat, blob: Option<bytes>) {
    blob.Some? ==> Harmless(h, content, g, blob.value)
  }

  ghost predicate Next(h: Host, r: Repo, ev: Event, r': Repo)
    requires HostOk(h)
  {
    match ev
    case Completed(content, nonces, e) =>
      var job := JobOf(h, content);
      && NoncesOk(nonces) && IsUuid(e.fileId) && e.fileId !in r.entries
      && Outcome(job, nonces, r.dirs, r.entries, e.path, e.fileId, NO_FAULTS, Ok(e), r'.dirs, r'.entries)
      && r'.contents == r.contents[e.fileId := content] && r'.harmed == Mended(r.harmed, content, job.Shards())
    case PartFailed(content, nonces, n, debris) =>
      && NoncesOk(nonces) && n <= JobOf(h, content).Shards() && BlobOk(h, content, n, debris)
      && r' == r.(dirs := StoppedAt(JobOf(h, content), nonces, r.dirs, n, debris),
                  harmed := Mended(r.harmed, content, n) + if debris.Some? then {Shard(content, n)} else {})
    case PruneDone(p, now, cal, ids) =>
      var kept := Pruned(r.entries, TierOf(p, now, cal), p.maxVersions);
      && CalendarOk(cal)
      && IdSet(ids) == r.entries.Keys - kept.Keys
      && r' == r.(entries := kept, dirs := DeleteAll(r.dirs, ids))
    case Harm(content, g, blob) =>
      && BlobOk(h, content, g, blob)
      && r' == r.(dirs := Storage.Torn(r.dirs, KeyOf(h, content), g, blob), harmed := r.harmed + {Shard(content, g)})
  }

  ghost predicate IsRun(h: Host, repos: seq<Repo>, evs: seq<Event>)
    requires HostOk(h)
  {
    && |repos| == |evs| + 1 && repos[0] == EMPTY
    && forall i :: 0 <= i < |evs| ==> Next(h, repos[i], evs[i], repos[i + 1])
  }

  // ---- The code takes these steps ------------------------------------------

  /** Whatever backupOneFile does is a completed or a part-failed backup, as long as debris
      does not authenticate as something else. */
  lemma BackupIsStep(h: Host, content: bytes, nonces: Nonces, repo: Repo, path: string, fileId: string, f: Faults,
                     r: Result<ManifestEntry>, dirs': Storage.Dirs, es': Entries)
    requires HostOk(h) && NoncesOk(nonces) && IsUuid(fileId) && fileId !in repo.entries && JobOf(h, content).Shards() >= 0
    requires BlobOk(h, content, Reached(JobOf(h, content), f), f.debris)
    requires Outcome(JobOf(h, content), nonces, repo.dirs, repo.entries, path, fileId, f, r, dirs', es')
    ensures r.Ok? ==> Next(h, repo, Completed(content, nonces, r.value),
      Repo(dirs', es', repo.contents[fileId := content], Mended(repo.harmed, content, JobOf(h, content).Shards())))
    ensures r.Err? ==> es' == repo.entries
    ensures r.Err? ==>
      var n, debris := Reached(JobOf(h, content), f), if f.readable then f.debris else None;
      Next(h, repo, PartFailed(content, nonces, n, debris),
           repo.(dirs := dirs', harmed := Mended(repo.harmed, content, n) + if debris.Some? then {Shard(content, n)} else {}))
  {
    hide Stored, IsUuid, Harmless;
  }

  /** Prune: drop versions from the manifest, then delete a directory for each dropped FileID. */
  method Prune(mf: Manifest, store: Storage.Store, policy: Policy, now: Time, cal: Calendar) returns (pruned: seq<string>)
    requires Valid(mf.entries) && CalendarOk(cal)
    modifies mf, store
    ensures Valid(mf.entries)
    ensures mf.entries == Pruned(old(mf.entries), TierOf(policy, now, cal), policy.maxVersions)
    ensures IdSet(pruned) == old(mf.entries).Keys - mf.entries.Keys
    ensures store.dirs == DeleteAll(old(store.dirs), pruned)
    ensures forall h: Host, contents: map<string, bytes>, harmed: set<Shard> :: HostOk(h) ==>
      Next(h, Repo(old(store.dirs), old(mf.entries), contents, harmed), PruneDone(policy, now, cal, pruned),
           Repo(store.dirs, mf.entries, contents, harmed))
  {
    hide Valid, Pruned;
    pruned := mf.PruneVersions(policy, now, cal);
    ghost var dirs := store.dirs;
    for i := 0 to |pruned|
      invariant DeleteAll(dirs, pruned) == DeleteAll(store.dirs, pruned[i..])
      invariant mf.entries == Pruned(old(mf.entries), TierOf(policy, now, cal), policy.maxVersions)
    {
      assert pruned[i..][0] == pruned[i] && pruned[i..][1..] == pruned[i + 1..];
      store.DeleteFile(pruned[i]);
    }
  }

  // ---- Directories and FileIDs never meet ----------------------------------

  ghost predicate NamesOk(r: Repo) {
    && (forall k :: k in r.dirs ==> !IsUuid(k)) && (forall id :: id in r.entries ==> IsUuid(id))
  }

  lemma StoredUnfold(job: Job, nonces: Nonces, dirs: Storage.Dirs, n: nat)
    requires ShaContract(job.lib) && job.T() > 0
    ensures |job.Hash()| == HASH_SIZE
    ensures Stored(job, nonces, dirs, n + 1) ==
      Storage.Put(Stored(job, nonces, dirs, n), StoreKey(job.Hash()), n, ParityOf(job, n), CipherOf(job, nonces, n))
  {
  }

  lemma {:induction false} StoredKeys(job: Job, nonces: Nonces, dirs: Storage.Dirs, n: nat, k: string)
    requires ShaContract(job.lib) && job.T() > 0 && k in Stored(job, nonces, dirs, n) && k !in dirs
    ensures !IsUuid(k)
  {
    hide IsUuid, CipherOf;
    if n > 0 {
      StoredUnfold(job, nonces, dirs, n - 1);
      StoreKeyIsNoUuid(job.Hash());
      if k in Stored(job, nonces, dirs, n - 1) {
        StoredKeys(job, nonces, dirs, n - 1, k);
      }
    }
  }

  lemma StoppedKeys(h: Host, content: bytes, nonces: Nonces, dirs: Storage.Dirs, n: nat, debris: Option<bytes>, k: string)
    requires HostOk(h) && JobOf(h, content).T() > 0 && k in StoppedAt(JobOf(h, content), nonces, dirs, n, debris) && k !in dirs
    ensures !IsUuid(k)
  {
    hide IsUuid, Stored;
    JobFields(h, content);
    StoreKeyIsNoUuid(JobOf(h, content).Hash());
    if k in Stored(JobOf(h, content), nonces, dirs, n) {
      StoredKeys(JobOf(h, content), nonces, dirs, n, k);
    }
  }

  /** Deleting by FileID reaches no shard directory. */
  lemma {:induction false} DeletingUuidsFreesNothing(dirs: Storage.Dirs, ids: seq<string>)
    requires forall k :: k in dirs ==> !IsUuid(k)
    requires forall id :: id in ids ==> IsUuid(id)
    ensures DeleteAll(dirs, ids) == dirs
  {
    hide IsUuid;
    if ids != [] {
      assert ids[0] !in dirs;
      assert Storage.Delete(dirs, ids[0]) == dirs;
      DeletingUuidsFreesNothing(dirs, ids[1..]);
    }
  }

  lemma PruneStepFreesNothing(h: Host, r: Repo, ev: Event, r': Repo)
    requires HostOk(h) && NamesOk(r) && ev.PruneDone? && Next(h, r, ev, r')
    ensures r'.dirs == r.dirs && NamesOk(r')
  {
    hide IsUuid, Survives, HostOk;
    forall id | id in ev.ids ensures IsUuid(id) {
      assert id in IdSet(ev.ids);
    }
    DeletingUuidsFreesNothing(r.dirs, ev.ids);
  }

  lemma StepKeepsNames(h: Host, r: Repo, ev: Event, r': Repo)
    requires HostOk(h) && NamesOk(r) && Next(h, r, ev, r')
    ensures NamesOk(r')
  {
    if ev.PruneDone? {
      PruneStepFreesNothing(h, r, ev, r');
    } else {
      JobFields(h, ev.content);
      forall k | k in r'.dirs && k !in r.dirs ensures !IsUuid(k) {
        hide IsUuid, Stored, StoppedAt;
        if ev.Harm? {
          StoreKeyIsNoUuid(FileHash(h.lib, ev.content));
        } else {
          StepDirs(h, r, ev, r');
          StoppedKeys(h, ev.content, ev.nonces, r.dirs, Written(h, ev), Debris(ev), k);
        }
      }
    }
  }

  /** How many shards a backup event wrote, and what it left of the next one. */
  function Written(h: Host, ev: Event): nat
    requires !ev.PruneDone? && !ev.Harm?
  {
    if ev.PartFailed? then ev.written else if JobOf(h, ev.content).Shards() >= 0 then JobOf(h, ev.content).Shards() else 0
  }

  function Debris(ev: Event): Option<bytes> { if ev.PartFailed? then ev.debris else None }

  lemma StepDirs(h: Host, r: Repo, ev: Event, r': Repo)
    requires HostOk(h) && Next(h, r, ev, r') && (ev.Completed? || ev.PartFailed?)
    ensures JobOf(h, ev.content).T() > 0 && r'.dirs == StoppedAt(JobOf(h, ev.content), ev.nonces, r.dirs, Written(h, ev), Debris(ev))
  {
    hide Stored, IsUuid, Harmless;
    JobFields(h, ev.content);
  }

  lemma {:induction false} RunsKeepNames(h: Host, repos: seq<Repo>, evs: seq<Event>, i: nat)
    requires HostOk(h) && IsRun(h, repos, evs) && i < |repos|
    ensures NamesOk(repos[i])
  {
    hide HostOk, NamesOk, Next;
    if i == 0 {
      EmptyNames();
    } else {
      RunsKeepNames(h, repos, evs, i - 1);
      StepKeepsNames(h, repos[i - 1], evs[i - 1], repos[i]);
    }
  }

  lemma EmptyNames()
    ensures NamesOk(EMPTY)
  {
  }

  /** No pruning of any run ever frees a shard: the store is the same before and after. */
  lemma PruneFreesNothing(h: Host, repos: seq<Repo>, evs: seq<Event>, i: nat)
    requires HostOk(h) && IsRun(h, repos, evs) && i < |evs| && evs[i].PruneDone?
    ensures repos[i + 1].dirs == repos[i].dirs
  {
    hide HostOk, NamesOk, Next;
    RunsKeepNames(h, repos, evs, i);
    PruneStepFreesNothing(h, repos[i], evs[i], repos[i + 1]);
  }

  // ---- The invariant -------------------------------------------------------

  /** Shard g's local file is missing, genuine or does not open; unless it was harmed it is genuine. */
  ghost predicate ShardOk(h: Host, dirs: Storage.Dirs, harmed: set<Shard>, content: bytes, g: nat)
    requires HostOk(h)
  {
    var blob := Storage.Get(dirs, KeyOf(h, content), g);
    && (blob.Some? ==> Harmless(h, content, g, blob.value))
    && (Shard(content, g) !in harmed ==> blob.Some? && Genuine(h, content, g, blob.value))
  }

  ghost predicate FileOk(h: Host, dirs: Storage.Dirs, harmed: set<Shard>, content: bytes)
    requires HostOk(h)
  {
    forall g: nat :: g < JobOf(h, content).Shards() ==> ShardOk(h, dirs, harmed, content, g)
  }

  ghost predicate Good(h: Host, r: Repo)
    requires HostOk(h)
  {
    && Valid(r.entries)
    && r.entries.Keys <= r.contents.Keys
    && (forall id :: id in r.entries ==> EntryOf(h, r.entries[id], r.contents[id]) && FileOk(h, r.dirs, r.harmed, r.contents[id]))
    && NamesOk(r)
  }

  /** No two of these contents share a store directory. */
  ghost predicate DistinctKeys(lib: Lib, contents: set<bytes>)
    requires ShaContract(lib)
  {
    forall a, b :: a in contents && b in contents && StoreKey(FileHash(lib, a)) == StoreKey(FileHash(lib, b)) ==> a == b
  }

  // ---- Writes --------------------------------------------------------------

  lemma PutGet(dirs: Storage.Dirs, key: string, i: int, p: bool, data: bytes, key': string, j: int)
    ensures Storage.Get(Storage.Put(dirs, key, i, p, data), key', j) ==
      if key == key' && i == j then Some(data) else Storage.Get(dirs, key', j)
  {
  }

  lemma TornGet(dirs: Storage.Dirs, key: string, i: int, blob: Option<bytes>, key': string, j: int)
    ensures Storage.Get(Storage.Torn(dirs, key, i, blob), key', j) ==
      if key == key' && i == j then blob else Storage.Get(dirs, key', j)
  {
  }

  /** The store after n shards, one slot at a time. */
  lemma {:induction false} StoredGet(job: Job, nonces: Nonces, dirs: Storage.Dirs, n: nat, key: string, j: nat)
    requires ShaContract(job.lib) && job.T() > 0
    ensures |job.Hash()| == HASH_SIZE
    ensures Storage.Get(Stored(job, nonces, dirs, n), key, j) ==
      if key == StoreKey(job.Hash()) && j < n then Some(CipherOf(job, nonces, j)) else Storage.Get(dirs, key, j)
  {
    hide *;
    HashSize(job);
    if n == 0 {
      StoredNothing(job, nonces, dirs);
    } else {
      StoredGet(job, nonces, dirs, n - 1, key, j);
      StoredUnfold(job, nonces, dirs, n - 1);
      PutGet(Stored(job, nonces, dirs, n - 1), StoreKey(job.Hash()), n - 1, ParityOf(job, n - 1), CipherOf(job, nonces, n - 1), key, j);
    }
  }

  /** After a stop: shards below n are new, shard n may be debris, the rest is as before. */
  lemma StoppedGet(h: Host, content: bytes, nonces: Nonces, dirs: Storage.Dirs, n: nat, debris: Option<bytes>, key: string, g: nat)
    requires HostOk(h) && JobOf(h, content).T() > 0
    ensures Storage.Get(StoppedAt(JobOf(h, content), nonces, dirs, n, debris), key, g) ==
      if key != KeyOf(h, content) then Storage.Get(dirs, key, g)
      else if g < n then Some(CipherOf(JobOf(h, content), nonces, g))
      else if g == n && n < JobOf(h, content).Shards() && debris.Some? then debris
      else Storage.Get(dirs, key, g)
  {
    hide Stored, CipherOf, Storage.Get, Storage.Torn, StoreKey, HostOk;
    JobFields(h, content);
    var job := JobOf(h, content);
    StoredGet(job, nonces, dirs, n, key, g);
    TornGet(Stored(job, nonces, dirs, n), KeyOf(h, content), n, debris, key, g);
  }

  /** Writing shards of one content, down to a torn one, leaves every shard in order. */
  lemma StoppedShard(h: Host, content: bytes, nonces: Nonces, r: Repo, n: nat, debris: Option<bytes>, other: bytes, g: nat)
    requires HostOk(h) && NoncesOk(nonces) && JobOf(h, content).T() > 0
    requires KeyOf(h, content) == KeyOf(h, other) ==> content == other
    requires g < JobOf(h, other).Shards() && BlobOk(h, content, n, debris)
    requires ShardOk(h, r.dirs, r.harmed, other, g) || (other == content && g < n)
    ensures ShardOk(h, StoppedAt(JobOf(h, content), nonces, r.dirs, n, debris),
                    Mended(r.harmed, content, n) + if debris.Some? then {Shard(content, n)} else {}, other, g)
  {
    hide CipherOf, StoppedAt, KeyOf, HostOk, Genuine, Opens;
    JobFields(h, content);
    StoppedGet(h, content, nonces, r.dirs, n, debris, KeyOf(h, other), g);
    CipherIsGenuine(h, content, nonces, g);
  }

  /** No harm above the last shard matters, so a whole backup mends the content. */
  lemma StoppedFile(h: Host, content: bytes, nonces: Nonces, r: Repo, n: nat, debris: Option<bytes>, other: bytes)
    requires HostOk(h) && NoncesOk(nonces) && JobOf(h, content).T() > 0 && BlobOk(h, content, n, debris)
    requires KeyOf(h, content) == KeyOf(h, other) ==> content == other
    requires FileOk(h, r.dirs, r.harmed, other) || (other == content && n == JobOf(h, content).Shards())
    ensures FileOk(h, StoppedAt(JobOf(h, content), nonces, r.dirs, n, debris),
                   Mended(r.harmed, content, n) + if debris.Some? then {Shard(content, n)} else {}, other)
  {
    hide ShardOk, StoppedAt, KeyOf, HostOk, Mended, BlobOk, NoncesOk;
    JobFields(h, content);
    var dirs' := StoppedAt(JobOf(h, content), nonces, r.dirs, n, debris);
    var harmed' := Mended(r.harmed, content, n) + if debris.Some? then {Shard(content, n)} else {};
    forall g: nat | g < JobOf(h, other).Shards() ensures ShardOk(h, dirs', harmed', other, g) {
      StoppedShard(h, content, nonces, r, n, debris, other, g);
    }
  }

  lemma HarmedFile(h: Host, r: Repo, content: bytes, g: nat, blob: Option<bytes>, other: bytes)
    requires HostOk(h) && BlobOk(h, content, g, blob) && FileOk(h, r.dirs, r.harmed, other)
    requires KeyOf(h, content) == KeyOf(h, other) ==> content == other
    ensures FileOk(h, Storage.Torn(r.dirs, KeyOf(h, content), g, blob), r.harmed + {Shard(content, g)}, other)
  {
    hide KeyOf, HostOk, Genuine, Opens, Storage.Get, Storage.Torn;
    JobFields(h, content);
    forall k: nat | k < JobOf(h, other).Shards()
      ensures ShardOk(h, Storage.Torn(r.dirs, KeyOf(h, content), g, blob), r.harmed + {Shard(content, g)}, other, k)
    {
      assert ShardOk(h, r.dirs, r.harmed, other, k);
      TornGet(r.dirs, KeyOf(h, content), g, blob, KeyOf(h, other), k);
    }
  }

  // ---- Steps and runs ------------------------------------------------------

  lemma KeysApart(h: Host, contents: set<bytes>, a: bytes, b: bytes)
    requires HostOk(h) && DistinctKeys(h.lib, contents) && a in contents && b in contents
    ensures KeyOf(h, a) == KeyOf(h, b) ==> a == b
  {
  }

  /** What Next says of a completed backup. */
  lemma CompletedMeans(h: Host, r: Repo, ev: Event, r': Repo)
    requires HostOk(h) && Good(h, r) && ev.Completed? && Next(h, r, ev, r')
    ensures var job := JobOf(h, ev.content);
      && NoncesOk(ev.nonces) && job.T() > 0 && job.Shards() >= 0 && r'.dirs == StoppedAt(job, ev.nonces, r.dirs, job.Shards(), None)
      && r'.harmed == Mended(r.harmed, ev.content, job.Shards()) + {}
      && r'.entries == r.entries[ev.entry.fileId := ev.entry]
      && r'.contents == r.contents[ev.entry.fileId := ev.content]
      && Valid(r'.entries) && EntryOf(h, ev.entry, ev.content) && ev.entry.fileId !in r.entries
  {
    hide FileOk, IsUuid, Stored, Mended;
    JobFields(h, ev.content);
    UpsertStaysValid(r.entries, ev.entry);
    assert Mended(r.harmed, ev.content, JobOf(h, ev.content).Shards()) + {} == Mended(r.harmed, ev.content, JobOf(h, ev.content).Shards());
  }

  lemma CompletedStaysGood(h: Host, r: Repo, ev: Event, r': Repo, contents: set<bytes>)
    requires HostOk(h) && Good(h, r) && ev.Completed? && Next(h, r, ev, r')
    requires DistinctKeys(h.lib, contents) && ev.content in contents && r.contents.Values <= contents
    ensures Good(h, r')
  {
    hide *;
    CompletedMeans(h, r, ev, r');
    GoodMeans(h, r);
    StepKeepsNames(h, r, ev, r');
    NoDebris(h, ev.content, JobOf(h, ev.content).Shards());
    var n := JobOf(h, ev.content).Shards();
    forall id | id in r'.entries
      ensures id in r'.contents && EntryOf(h, r'.entries[id], r'.contents[id]) && FileOk(h, r'.dirs, r'.harmed, r'.contents[id])
    {
      if id != ev.entry.fileId {
        assert r.contents[id] in r.contents.Values;
        KeysApart(h, contents, ev.content, r.contents[id]);
      }
      StoppedFile(h, ev.content, ev.nonces, r, n, None, r'.contents[id]);
    }
    IsGood(h, r');
  }

  lemma NoDebris(h: Host, content: bytes, n: nat)
    ensures BlobOk(h, content, n, None)
  {
  }

  lemma IsGood(h: Host, r: Repo)
    requires HostOk(h) && Valid(r.entries) && NamesOk(r)
    requires forall id :: id in r.entries ==>
      id in r.contents && EntryOf(h, r.entries[id], r.contents[id]) && FileOk(h, r.dirs, r.harmed, r.contents[id])
    ensures Good(h, r)
  {
    hide FileOk, EntryOf, HostOk, Valid, NamesOk;
  }

  lemma GoodMeans(h: Host, r: Repo)
    requires HostOk(h) && Good(h, r)
    ensures Valid(r.entries) && NamesOk(r)
    ensures forall id :: id in r.entries ==>
      id in r.contents && EntryOf(h, r.entries[id], r.contents[id]) && FileOk(h, r.dirs, r.harmed, r.contents[id])
  {
    hide FileOk, EntryOf, HostOk, Valid, NamesOk;
  }

  lemma PartFailedStaysGood(h: Host, r: Repo, ev: Event, r': Repo, contents: set<bytes>)
    requires HostOk(h) && Good(h, r) && ev.PartFailed? && Next(h, r, ev, r')
    requires DistinctKeys(h.lib, contents) && ev.content in contents && r.contents.Values <= contents
    ensures Good(h, r')
  {
    hide FileOk, EntryOf, Valid, NamesOk, HostOk, StoppedAt, Mended, BlobOk, DistinctKeys, KeyOf, NoncesOk;
    JobFields(h, ev.content);
    StepKeepsNames(h, r, ev, r');
    forall id | id in r.entries ensures FileOk(h, r'.dirs, r'.harmed, r.contents[id]) {
      assert r.contents[id] in r.contents.Values;
      KeysApart(h, contents, ev.content, r.contents[id]);
      StoppedFile(h, ev.content, ev.nonces, r, ev.written, ev.debris, r.contents[id]);
    }
  }

  lemma HarmStaysGood(h: Host, r: Repo, ev: Event, r': Repo, contents: set<bytes>)
    requires HostOk(h) && Good(h, r) && ev.Harm? && Next(h, r, ev, r')
    requires DistinctKeys(h.lib, contents) && ev.content in contents && r.contents.Values <= contents
    ensures Good(h, r')
  {
    hide FileOk, EntryOf, Valid, NamesOk, HostOk, BlobOk, DistinctKeys, KeyOf, Storage.Torn;
    StepKeepsNames(h, r, ev, r');
    forall id | id in r.entries ensures FileOk(h, r'.dirs, r'.harmed, r.contents[id]) {
      assert r.contents[id] in r.contents.Values;
      KeysApart(h, contents, ev.content, r.contents[id]);
      HarmedFile(h, r, ev.content, ev.g, ev.blob, r.contents[id]);
    }
  }

  lemma PrunedStaysGood(h: Host, r: Repo, ev: Event, r': Repo)
    requires HostOk(h) && Good(h, r) && ev.PruneDone? && Next(h, r, ev, r')
    ensures Good(h, r')
  {
    hide FileOk, Survives, EntryOf, HostOk, NamesOk;
    PruneStepFreesNothing(h, r, ev, r');
    PrunedStaysValid(r.entries, TierOf(ev.policy, ev.now, ev.cal), ev.policy.maxVersions);
    hide Valid;
  }

  /** All contents that backups and damage touch in the run. */
  ghost predicate Covers(contents: set<bytes>, evs: seq<Event>) {
    forall i :: 0 <= i < |evs| && !evs[i].PruneDone? ==> evs[i].content in contents
  }

  lemma {:induction false} RunsStayGood(h: Host, repos: seq<Repo>, evs: seq<Event>, contents: set<bytes>, i: nat)
    requires HostOk(h) && IsRun(h, repos, evs) && Covers(contents, evs) && DistinctKeys(h.lib, contents) && i < |repos|
    ensures Good(h, repos[i]) && repos[i].contents.Values <= contents
  {
    hide Good, HostOk, DistinctKeys, Next;
    if i == 0 {
      EmptyIsGood(h);
    } else {
      RunsStayGood(h, repos, evs, contents, i - 1);
      assert Next(h, repos[i - 1], evs[i - 1], repos[i]);
      StepStaysGood(h, repos[i - 1], evs[i - 1], repos[i], contents);
    }
  }

  lemma EmptyIsGood(h: Host)
    requires HostOk(h)
    ensures Good(h, EMPTY) && EMPTY.contents.Values == {}
  {
  }

  lemma StepStaysGood(h: Host, r: Repo, ev: Event, r': Repo, contents: set<bytes>)
    requires HostOk(h) && Good(h, r) && Next(h, r, ev, r') && DistinctKeys(h.lib, contents)
    requires r.contents.Values <= contents && (!ev.PruneDone? ==> ev.content in contents)
    ensures Good(h, r') && r'.contents.Values <= contents
  {
    hide Good, HostOk, DistinctKeys, Outcome, StoppedAt, Mended, Pruned, DeleteAll;
    match ev
    case Completed(_, _, _) => CompletedStaysGood(h, r, ev, r', contents);
    case PartFailed(_, _, _, _) => PartFailedStaysGood(h, r, ev, r', contents);
    case PruneDone(_, _, _, _) => PrunedStaysGood(h, r, ev, r');
    case Harm(_, _, _) => HarmStaysGood(h, r, ev, r', contents);
  }

  // ---- Restoring -----------------------------------------------------------

  /** Where the local file is missing, the first buddy that answers sends a genuine shard or
      one that does not open. */
  ghost predicate BuddiesHarmless(h: Host, dirs: Storage.Dirs, content: bytes, buddies: Buddies)
    requires HostOk(h)
  {
    forall g: nat :: g < JobOf(h, content).Shards() && Storage.Get(dirs, KeyOf(h, content), g).None? ==>
      BlobOk(h, content, g, FirstReply(buddies, KeyOf(h, content), g))
  }

  lemma SourcesAreHarmless(h: Host, r: Repo, content: bytes, buddies: Buddies)
    requires HostOk(h) && FileOk(h, r.dirs, r.harmed, content) && BuddiesHarmless(h, r.dirs, content, buddies)
    ensures SourcesHarmless(h, content, Sources(r.dirs, buddies))
  {
    hide HostOk, Harmless, Genuine, KeyOf, Storage.Get, FirstReply;
    JobFields(h, content);
    var src := Sources(r.dirs, buddies);
    forall g: nat | g < JobOf(h, content).Shards() && Fetch(src, KeyOf(h, content), g).Some?
      ensures Harmless(h, content, g, Fetch(src, KeyOf(h, content), g).value)
    {
      assert ShardOk(h, r.dirs, r.harmed, content, g);
    }
  }

  /** In every reachable repository a version restores to its own bytes if each of its chunks
      has dataShards shards that can be had, and fails otherwise. */
  lemma EveryVersionRestoresIff(h: Host, repos: seq<Repo>, evs: seq<Event>, contents: set<bytes>, i: nat, id: string, buddies: Buddies)
    requires HostOk(h) && IsRun(h, repos, evs) && Covers(contents, evs) && DistinctKeys(h.lib, contents)
    requires i < |repos| && id in repos[i].entries && id in repos[i].contents
    requires BuddiesHarmless(h, repos[i].dirs, repos[i].contents[id], buddies)
    ensures var content, src := repos[i].contents[id], Sources(repos[i].dirs, buddies);
      var r := RestoreEntry(h.lib, h.masterKey, repos[i].entries[id], src);
      if Recoverable(h, content, src) then r == Ok(Restored(content, true)) else r.Err?
  {
    hide *;
    RunsStayGood(h, repos, evs, contents, i);
    GoodMeans(h, repos[i]);
    SourcesAreHarmless(h, repos[i], repos[i].contents[id], buddies);
    RestoresIff(h, repos[i].entries[id], repos[i].contents[id], Sources(repos[i].dirs, buddies));
  }

  /** How many of the n shards from `from` on are harmed. */
  ghost function HarmedIn(harmed: set<Shard>, content: bytes, from: nat, n: nat): nat {
    if n == 0 then 0
    else HarmedIn(harmed, content, from, n - 1) + if Shard(content, from + n - 1) in harmed then 1 else 0
  }

  /** No chunk of the content has more harmed shards than the scheme has parity shards. */
  ghost predicate Tolerable(h: Host, harmed: set<Shard>, content: bytes)
    requires HostOk(h)
  {
    forall ci: nat :: ci < JobOf(h, content).Chunks() ==> ChunkTolerable(h, harmed, content, ci)
  }

  ghost predicate ChunkTolerable(h: Host, harmed: set<Shard>, content: bytes, ci: nat)
    requires h.s.Total() >= 0
  {
    HarmedIn(harmed, content, ci * h.s.Total(), h.s.Total()) <= h.s.parityShards
  }

  lemma {:induction false} UnharmedObtained(h: Host, r: Repo, content: bytes, src: Sources, from: nat, n: nat)
    requires HostOk(h) && src.local == r.dirs && FileOk(h, r.dirs, r.harmed, content) && from + n <= JobOf(h, content).Shards()
    ensures ShaContract(h.lib) && Obtained(h, content, src, from, n) + HarmedIn(r.harmed, content, from, n) >= n
  {
    hide HostOk, FileOk, Obtains;
    JobFields(h, content);
    if n > 0 {
      UnharmedObtained(h, r, content, src, from, n - 1);
      UnharmedObtains(h, r, content, src, from + n - 1);
    }
  }

  lemma UnharmedObtains(h: Host, r: Repo, content: bytes, src: Sources, g: nat)
    requires HostOk(h) && src.local == r.dirs && FileOk(h, r.dirs, r.harmed, content) && g < JobOf(h, content).Shards()
    ensures Shard(content, g) !in r.harmed ==> Obtains(h, content, src, g)
  {
    hide HostOk, KeyOf, Storage.Get;
    assert ShardOk(h, r.dirs, r.harmed, content, g);
  }

  lemma TolerableIsRecoverable(h: Host, r: Repo, content: bytes, src: Sources)
    requires HostOk(h) && src.local == r.dirs && FileOk(h, r.dirs, r.harmed, content) && Tolerable(h, r.harmed, content)
    ensures Recoverable(h, content, src)
  {
    hide HostOk, FileOk, Obtained, HarmedIn;
    JobFields(h, content);
    forall ci: nat | ci < JobOf(h, content).Chunks() ensures ChunkRecoverable(h, content, src, ci) {
      LocationBounds(JobOf(h, content).Chunks(), ci, h.s.Total());
      UnharmedObtained(h, r, content, src, ci * h.s.Total(), h.s.Total());
      assert ChunkTolerable(h, r.harmed, content, ci);
    }
  }

  /** Over every run of backups, part-failed backups, prunings and damage with one scheme and
      distinct store keys, every version still in the manifest restores to its own bytes as
      long as no chunk of it has more harmed shards than parity shards. */
  lemma EveryVersionRestores(h: Host, repos: seq<Repo>, evs: seq<Event>, contents: set<bytes>, i: nat, id: string, buddies: Buddies)
    requires HostOk(h) && IsRun(h, repos, evs) && Covers(contents, evs) && DistinctKeys(h.lib, contents)
    requires i < |repos| && id in repos[i].entries
    ensures id in repos[i].contents
    ensures Tolerable(h, repos[i].harmed, repos[i].contents[id])
            && BuddiesHarmless(h, repos[i].dirs, repos[i].contents[id], buddies) ==>
      RestoreEntry(h.lib, h.masterKey, repos[i].entries[id], Sources(repos[i].dirs, buddies))
        == Ok(Restored(repos[i].contents[id], true))
  {
    hide *;
    RunsStayGood(h, repos, evs, contents, i);
    GoodMeans(h, repos[i]);
    var content, src := repos[i].contents[id], Sources(repos[i].dirs, buddies);
    if Tolerable(h, repos[i].harmed, content) && BuddiesHarmless(h, repos[i].dirs, content, buddies) {
      EveryVersionRestoresIff(h, repos, evs, contents, i, id, buddies);
      TolerableIsRecoverable(h, repos[i], content, src);
    }
  }

  /** Without damage and torn writes that is every version, whatever the buddies hold. */
  lemma UnharmedVersionsRestore(h: Host, repos: seq<Repo>, evs: seq<Event>, contents: set<bytes>, i: nat, id: string, buddies: Buddies)
    requires HostOk(h) && IsRun(h, repos, evs) && Covers(contents, evs) && DistinctKeys(h.lib, contents)
    requires i < |repos| && id in repos[i].entries && id in repos[i].contents
    requires forall g: nat :: Shard(repos[i].contents[id], g) !in repos[i].harmed
    ensures RestoreEntry(h.lib, h.masterKey, repos[i].entries[id], Sources(repos[i].dirs, buddies))
         == Ok(Restored(repos[i].contents[id], true))
  {
    hide *;
    RunsStayGood(h, repos, evs, contents, i);
    GoodMeans(h, repos[i]);
    Untouched(h, repos[i], repos[i].contents[id], buddies);
    EveryVersionRestores(h, repos, evs, contents, i, id, buddies);
  }

  lemma Untouched(h: Host, r: Repo, content: bytes, buddies: Buddies)
    requires HostOk(h) && FileOk(h, r.dirs, r.harmed, content) && forall g: nat :: Shard(content, g) !in r.harmed
    ensures Tolerable(h, r.harmed, content) && BuddiesHarmless(h, r.dirs, content, buddies)
  {
    JobFields(h, content);
    assert h.s.parityShards >= 0;
    hide HostOk, KeyOf, Genuine, Harmless, Storage.Get, FirstReply;
    forall ci: nat | ci < JobOf(h, content).Chunks() ensures ChunkTolerable(h, r.harmed, content, ci) {
      LocationBounds(JobOf(h, content).Chunks(), ci, h.s.Total());
      NoneHarmed(r.harmed, content, ci * h.s.Total(), h.s.Total());
    }
    forall g: nat | g < JobOf(h, content).Shards() ensures Storage.Get(r.dirs, KeyOf(h, content), g).Some? {
      assert ShardOk(h, r.dirs, r.harmed, content, g);
    }
  }

  lemma {:induction false} NoneHarmed(harmed: set<Shard>, content: bytes, from: nat, n: nat)
    requires forall g: nat :: Shard(content, g) !in harmed
    ensures HarmedIn(harmed, content, from, n) == 0
  {
    if n > 0 {
      NoneHarmed(harmed, content, from, n - 1);
    }
  }

  // ---- Failed rewrites can use the parity up -------------------------------

  /** The repository after the j-th of a series of backups of one content that fail at shards
      p, p - 1, ... 0, each truncating the file it fails to write. */
  ghost function Rewritten(h: Host, r: Repo, content: bytes, nonces: Nonces, p: nat, j: nat): Repo
    requires HostOk(h) && JobOf(h, content).T() > 0 && j <= p + 1
  {
    if j == 0 then r
    else
      var before, n := Rewritten(h, r, content, nonces, p, j - 1), p - (j - 1);
      before.(dirs := StoppedAt(JobOf(h, content), nonces, before.dirs, n, Some([])),
              harmed := Mended(before.harmed, content, n) + {Shard(content, n)})
  }

  lemma RewriteIsStep(h: Host, r: Repo, content: bytes, nonces: Nonces, p: nat, j: nat)
    requires HostOk(h) && JobOf(h, content).T() > 0 && j <= p && NoncesOk(nonces) && p < JobOf(h, content).Shards()
    ensures Next(h, Rewritten(h, r, content, nonces, p, j), PartFailed(content, nonces, p - j, Some([])),
                 Rewritten(h, r, content, nonces, p, j + 1))
    ensures Rewritten(h, r, content, nonces, p, j).entries == r.entries
  {
    hide StoppedAt, Mended, HostOk;
    NothingOpens(h, content, p - j);
    RewriteKeepsEntries(h, r, content, nonces, p, j);
  }

  lemma NothingOpens(h: Host, content: bytes, g: nat)
    ensures !Opens(h, content, g, [])
  {
  }

  lemma {:induction false} RewriteKeepsEntries(h: Host, r: Repo, content: bytes, nonces: Nonces, p: nat, j: nat)
    requires HostOk(h) && JobOf(h, content).T() > 0 && j <= p + 1
    ensures Rewritten(h, r, content, nonces, p, j).entries == r.entries
  {
    hide StoppedAt, Mended, HostOk;
    if j > 0 {
      RewriteKeepsEntries(h, r, content, nonces, p, j - 1);
    }
  }

  /** After j rewrites the files of the shards above p - j, up to p, are empty; every file is still there. */
  lemma {:induction false} RewriteEmpties(h: Host, r: Repo, content: bytes, nonces: Nonces, p: nat, j: nat, g: nat)
    requires HostOk(h) && JobOf(h, content).T() > 0 && j <= p + 1 && p < JobOf(h, content).Shards()
    requires NoncesOk(nonces) && Storage.Get(r.dirs, KeyOf(h, content), g).Some?
    requires Harmless(h, content, g, Storage.Get(r.dirs, KeyOf(h, content), g).value)
    ensures var blob := Storage.Get(Rewritten(h, r, content, nonces, p, j).dirs, KeyOf(h, content), g);
      && blob.Some? && Harmless(h, content, g, blob.value)
      && (p - j < g <= p ==> blob == Some([]))
  {
    hide StoppedAt, Mended, HostOk, KeyOf, Storage.Get, CipherOf, Genuine, Opens;
    JobFields(h, content);
    if j > 0 {
      RewriteEmpties(h, r, content, nonces, p, j - 1, g);
      StoppedGet(h, content, nonces, Rewritten(h, r, content, nonces, p, j - 1).dirs, p - (j - 1), Some([]), KeyOf(h, content), g);
      CipherIsGenuine(h, content, nonces, g);
      NothingOpens(h, content, g);
    }
  }

  lemma {:induction false} FirstOnesLost(h: Host, content: bytes, src: Sources, m: nat, n: nat)
    requires ShaContract(h.lib) && m <= n && forall g: nat :: g < m ==> !Obtains(h, content, src, g)
    ensures Obtained(h, content, src, 0, n) <= n - m
  {
    hide Obtains;
    if n == m {
      CountNone(h, content, src, 0, n);
    } else {
      FirstOnesLost(h, content, src, m, n - 1);
    }
  }

  /** Backups of a stored, non-empty content that fail in turn at shards p, ..., 1, 0, with p
      the number of parity shards, leave a version that cannot be restored any more,
      whatever the buddies hold: one failure more than the parity can take. */
  lemma FailedRewritesDestroy(h: Host, r: Repo, id: string, nonces: Nonces, buddies: Buddies) returns (repos: seq<Repo>)
    requires HostOk(h) && Good(h, r) && id in r.entries && NoncesOk(nonces) && r.contents[id] != []
    requires forall g: nat :: Shard(r.contents[id], g) !in r.harmed
    ensures |repos| == h.s.parityShards + 2 && repos[0] == r
    ensures forall j :: 0 <= j <= h.s.parityShards ==>
      Next(h, repos[j], PartFailed(r.contents[id], nonces, h.s.parityShards - j, Some([])), repos[j + 1])
    ensures var last := repos[h.s.parityShards + 1];
      id in last.entries && RestoreEntry(h.lib, h.masterKey, last.entries[id], Sources(last.dirs, buddies)).Err?
  {
    hide *;
    GoodMeans(h, r);
    var content, p := r.contents[id], h.s.parityShards;
    JobFields(h, content);
    SchemeIsSane(h);
    HasAChunk(h, content);
    LocationBounds(JobOf(h, content).Chunks(), 0, h.s.Total());
    repos := seq(p + 2, j requires 0 <= j < p + 2 => Rewritten(h, r, content, nonces, p, j));
    RewriteStarts(h, r, content, nonces, p);
    forall j | 0 <= j <= p ensures Next(h, repos[j], PartFailed(content, nonces, p - j, Some([])), repos[j + 1]) {
      RewriteIsStep(h, r, content, nonces, p, j);
    }
    RewriteKeepsEntries(h, r, content, nonces, p, p + 1);
    RewriteLosesAll(h, r, content, nonces, p);
    var last := repos[p + 1];
    LocalCopiesDecide(h, last.entries[id], content, last.dirs, buddies);
  }

  lemma SchemeIsSane(h: Host)
    requires HostOk(h)
    ensures h.s.parityShards >= 0 && h.s.dataShards > 0 && h.s.Total() == h.s.dataShards + h.s.parityShards
  {
  }

  lemma RewriteStarts(h: Host, r: Repo, content: bytes, nonces: Nonces, p: nat)
    requires HostOk(h) && JobOf(h, content).T() > 0
    ensures Rewritten(h, r, content, nonces, p, 0) == r
  {
  }

  lemma RewriteLosesAll(h: Host, r: Repo, content: bytes, nonces: Nonces, p: nat)
    requires HostOk(h) && JobOf(h, content).T() > 0 && NoncesOk(nonces) && FileOk(h, r.dirs, r.harmed, content)
    requires forall g: nat :: Shard(content, g) !in r.harmed
    requires p == h.s.parityShards && JobOf(h, content).Chunks() > 0
    ensures var dirs := Rewritten(h, r, content, nonces, p, p + 1).dirs;
      AllLocal(h, content, dirs) && !Recoverable(h, content, Sources(dirs, []))
  {
    hide HostOk, Rewritten, KeyOf, Storage.Get, Harmless, Obtains, ShardOk, Recoverable, ChunkRecoverable, Obtained;
    JobFields(h, content);
    SchemeIsSane(h);
    LocationBounds(JobOf(h, content).Chunks(), 0, h.s.Total());
    var dirs := Rewritten(h, r, content, nonces, p, p + 1).dirs;
    var src := Sources(dirs, []);
    forall g: nat | g < JobOf(h, content).Shards()
      ensures var blob := Storage.Get(dirs, KeyOf(h, content), g); blob.Some? && Harmless(h, content, g, blob.value)
      ensures g <= p ==> !Obtains(h, content, src, g)
    {
      UnharmedIsThere(h, r, content, g);
      RewriteEmpties(h, r, content, nonces, p, p + 1, g);
      EmptyIsNotObtained(h, content, src, g);
    }
    FirstOnesLost(h, content, src, p + 1, h.s.Total());
    FirstChunkLost(h, content, src);
  }

  lemma UnharmedIsThere(h: Host, r: Repo, content: bytes, g: nat)
    requires HostOk(h) && ShardOk(h, r.dirs, r.harmed, content, g) && Shard(content, g) !in r.harmed
    ensures var blob := Storage.Get(r.dirs, KeyOf(h, content), g); blob.Some? && Harmless(h, content, g, blob.value)
  {
    hide HostOk, KeyOf, Storage.Get, Harmless, Genuine;
    JobFields(h, content);
  }

  lemma EmptyIsNotObtained(h: Host, content: bytes, src: Sources, g: nat)
    requires ShaContract(h.lib)
    ensures Storage.Get(src.local, KeyOf(h, content), g) == Some([]) ==> !Obtains(h, content, src, g)
  {
    hide KeyOf, Storage.Get;
    NothingOpens(h, content, g);
  }

  lemma FirstChunkLost(h: Host, content: bytes, src: Sources)
    requires HostOk(h) && h.s.Total() >= 0 && JobOf(h, content).Chunks() > 0
    requires Obtained(h, content, src, 0, h.s.Total()) < h.s.dataShards
    ensures !Recoverable(h, content, src)
  {
    hide HostOk, Obtained;
    JobFields(h, content);
    assert 0 * h.s.Total() == 0;
    assert !ChunkRecoverable(h, content, src, 0);
  }

  // ---- Two contents can have two directories -------------------------------

  lemma TwoContentsApart() returns (h: Host)
    ensures HostOk(h) && DistinctKeys(h.lib, {[1], [2]})
  {
    h := Host(TOY, [], Scheme(2, 1));
    ContractsAreSatisfiable();
    ToyHash(1);
    ToyHash(2);
    hide Hex, StoreKey, FileHash, HostOk;
    var a: bytes, b: bytes := [1] + Zeros(7), [2] + Zeros(7);
    assert a[0] != b[0];
    if Hex(a) == Hex(b) {
      HexInjective(a, b);
    }
  }

  lemma ToyHash(b: byte)
    ensures StoreKey(FileHash(TOY, [b])) == Hex([b] + Zeros(7))
  {
    var h := Head([b]);
    assert Pieces([b], DEFAULT_CHUNK_SIZE) == [[b]];
    assert Hashes(TOY, [[b]]) == [h];
    ConcatSnoc([], h);
    assert [] + [h] == [h];
    assert Head(h) == h;
    assert h[..8] == [b] + Zeros(7);
  }
}
