/** internal/api/backup.go: chunk, compress, split, encrypt under a running shard index, store, record. */
module Backup {
  import opened Base
  import opened Foreign
  import opened Protocol
  import opened Chunker
  import opened Codec
  import Compress
  import Storage
  import opened Restore
  import opened Versions
  import opened Lookup
  import opened Pruning

  /** Nonces are random; `Nonces` gives the one drawn for each shard index. */
  type Nonces = nat -> bytes

  ghost predicate NoncesOk(nonces: Nonces) {
    forall g :: |nonces(g)| == NONCE_SIZE
  }

  /** One file content on one machine, under one Reed-Solomon scheme. */
  datatype Job = Job(lib: Lib, masterKey: bytes, s: Scheme, content: bytes) {
    function Hash(): bytes { FileHash(lib, content) }
    function FileKey(): bytes { lib.fileKey(masterKey, Hash()) }
    function T(): int { s.Total() }
    function Chunks(): nat { |Pieces(content, DEFAULT_CHUNK_SIZE)| }
    function Shards(): int { Chunks() * T() }
  }

  function Body(job: Job, ci: nat): bytes
    requires ci < job.Chunks()
  {
    Compress.Compress(job.lib, Pieces(job.content, DEFAULT_CHUNK_SIZE)[ci])
  }

  /** Plaintext shard g of the file: shard g % t of chunk g / t. */
  function ShardOf(job: Job, g: nat): bytes {
    if job.s.dataShards <= 0 || job.T() <= 0 || g / job.T() >= job.Chunks() then []
    else match Split(job.lib, job.s, Body(job, g / job.T()))
      case Err(_) => []
      case Ok(shards) => if g % job.T() < |shards| then shards[g % job.T()] else []
  }

  function CipherOf(job: Job, nonces: Nonces, g: nat): bytes {
    EncryptShard(job.lib, job.FileKey(), g, nonces(g), ShardOf(job, g))
  }

  predicate ParityOf(job: Job, g: nat)
    requires job.T() > 0
  {
    g % job.T() >= job.s.dataShards
  }

  /** The store after the first n shards of the job. */
  ghost function Stored(job: Job, nonces: Nonces, dirs: Storage.Dirs, n: nat): Storage.Dirs
    requires ShaContract(job.lib) && job.T() > 0
  {
    if n == 0 then dirs
    else Storage.Put(Stored(job, nonces, dirs, n - 1), StoreKey(job.Hash()), n - 1, ParityOf(job, n - 1), CipherOf(job, nonces, n - 1))
  }

  function LocationList(job: Job, n: nat): (locs: seq<ShardLocation>)
    requires job.T() > 0
    ensures |locs| == n
  {
    seq(n, g requires 0 <= g => ShardLocation(g, ParityOf(job, g)))
  }

  /** fileHashFromChunks: the hash of the chunks' own hashes. */
  method FileHashFromChunks(lib: Lib, content: bytes, chunks: seq<Chunk>) returns (hash: bytes)
    requires ChunksOf(lib, chunks, Pieces(content, DEFAULT_CHUNK_SIZE), DEFAULT_CHUNK_SIZE)
    ensures hash == FileHash(lib, content)
  {
    ghost var hashes := Hashes(lib, Pieces(content, DEFAULT_CHUNK_SIZE));
    var fed: bytes := [];
    for i := 0 to |chunks|
      invariant fed == Concat(hashes[..i])
    {
      assert hashes[..i + 1] == hashes[..i] + [hashes[i]];
      ConcatSnoc(hashes[..i], hashes[i]);
      fed := fed + chunks[i].hash;
    }
    assert hashes[..|chunks|] == hashes;
    hash := lib.sha(fed);
  }

  /** The recorded hash of an empty file and of a file of one chunk. */
  lemma SmallFileHash(lib: Lib, content: bytes)
    ensures content == [] ==> FileHash(lib, content) == lib.sha([])
    ensures 0 < |content| <= 4_194_304 ==> FileHash(lib, content) == lib.sha(lib.sha(content))
  {
    if 0 < |content| <= 4_194_304 {
      assert Hashes(lib, [content]) == [lib.sha(content)];
      var none: seq<bytes> := [];
      ConcatCons(lib.sha(content), none);
      assert [lib.sha(content)] + none == [lib.sha(content)];
      assert lib.sha(content) + Concat(none) == lib.sha(content);
      assert Pieces(content, DEFAULT_CHUNK_SIZE) == [content];
    }
  }

  /** What is written for shard g: a nonce, and the shard sealed under the key that the master
      key, the file hash and the index give. */
  lemma CipherIs(job: Job, nonces: Nonces, g: nat)
    requires |nonces(g)| == NONCE_SIZE
    ensures CipherOf(job, nonces, g)
         == nonces(g) + job.lib.gcmSeal(job.lib.shardKey(job.lib.fileKey(job.masterKey, FileHash(job.lib, job.content)), g), nonces(g), ShardOf(job, g))
  {
    hide ShardOf;
    BlobIsUnderItsIndex(job.lib, job.FileKey(), g, nonces(g), ShardOf(job, g), []);
  }

  /** The recorded locations count on through all chunks, each chunk's data shards before its parity shards. */
  lemma LocationsAre(job: Job, ci: nat, si: nat)
    requires RsContract(job.lib, job.s) && ci < job.Chunks() && si < job.T()
    ensures 0 <= ci * job.T() + si < job.Shards()
    ensures LocationList(job, job.Shards())[ci * job.T() + si] == ShardLocation(ci * job.T() + si, si >= job.s.dataShards)
  {
    LocationBounds(job.Chunks(), ci, job.T());
    ModIsUnique(ci * job.T() + si, job.T(), ci, si);
  }

  /** A chunk splits into t non-empty shards. */
  lemma ChunkSplits(job: Job, ci: nat)
    requires RsContract(job.lib, job.s) && ci < job.Chunks()
    ensures var r := Split(job.lib, job.s, Body(job, ci));
      r.Ok? && |r.value| == job.T() && forall si :: 0 <= si < job.T() ==> r.value[si] != []
  {
    var body := Body(job, ci);
    SplitIsDataBlock(job.s, body);
    var data := DataShards(job.s, body);
    var parity := job.lib.parity(job.s, data);
    assert |parity| == job.s.parityShards && SameLength(parity, |data[0]|);
    var all: seq<bytes> := data + parity;
    forall si: nat | si < job.T() ensures all[si] != [] {
      assert |all[si]| == |data[0]|;
    }
  }

  lemma ShardAt(job: Job, ci: nat, si: nat)
    requires RsContract(job.lib, job.s) && ci < job.Chunks() && si < job.T()
    ensures Split(job.lib, job.s, Body(job, ci)).Ok? && |Split(job.lib, job.s, Body(job, ci)).value| == job.T()
    ensures ShardOf(job, ci * job.T() + si) == Split(job.lib, job.s, Body(job, ci)).value[si] != []
    ensures ParityOf(job, ci * job.T() + si) <==> si >= job.s.dataShards
  {
    ChunkSplits(job, ci);
    ModIsUnique(ci * job.T() + si, job.T(), ci, si);
  }

  lemma Positive(job: Job)
    requires RsContract(job.lib, job.s)
    ensures job.T() > 0
  {
  }

  lemma HashSize(job: Job)
    requires ShaContract(job.lib)
    ensures |job.Hash()| == HASH_SIZE
  {
  }

  /** Storing shard si of chunk ci is the next step of Stored. */
  lemma StoredStep(job: Job, nonces: Nonces, dirs0: Storage.Dirs, ci: nat, si: nat, rawShards: seq<bytes>)
    requires RsContract(job.lib, job.s) && ShaContract(job.lib) && ci < job.Chunks() && si < job.T()
    requires Split(job.lib, job.s, Body(job, ci)) == Ok(rawShards) && |rawShards| == job.T()
    ensures |job.Hash()| == HASH_SIZE && ci * job.T() >= 0
    ensures var g := ci * job.T() + si;
      Stored(job, nonces, dirs0, g + 1) ==
      Storage.Put(Stored(job, nonces, dirs0, g), StoreKey(job.Hash()), g, si >= job.s.dataShards,
                  EncryptShard(job.lib, job.FileKey(), g, nonces(g), rawShards[si]))
  {
    hide Split;
    hide RsContract;
    hide ShardOf;
    ShardAt(job, ci, si);
    HashSize(job);
  }

  /** Encrypt and store one shard under the running index. */
  method StoreShard(job: Job, nonces: Nonces, store: Storage.Store, rawShards: seq<bytes>, ci: nat, si: nat, idx: nat, ghost dirs0: Storage.Dirs)
    requires RsContract(job.lib, job.s) && ShaContract(job.lib) && ci < job.Chunks() && si < job.T()
    requires Split(job.lib, job.s, Body(job, ci)) == Ok(rawShards) && |rawShards| == job.T()
    requires idx == ci * job.T() + si && store.dirs == Stored(job, nonces, dirs0, idx)
    modifies store
    ensures store.dirs == Stored(job, nonces, dirs0, idx + 1)
  {
    hide *;
    StoredStep(job, nonces, dirs0, ci, si, rawShards);
    var ciphertext := EncryptShard(job.lib, job.FileKey(), idx, nonces(idx), rawShards[si]);
    store.PutShard(StoreKey(job.Hash()), idx, si >= job.s.dataShards, ciphertext);
  }

  /** The inner loop over the shards of one chunk, from index `counter` on. `failAt` is
      the index whose encryption or write fails, if any. */
  method StoreChunk(job: Job, nonces: Nonces, store: Storage.Store, rawShards: seq<bytes>, ci: nat, counter: nat,
                    failAt: Option<nat>, ghost dirs0: Storage.Dirs)
    returns (next: nat)
    requires RsContract(job.lib, job.s) && ShaContract(job.lib) && ci < job.Chunks() && counter == ci * job.T()
    requires Split(job.lib, job.s, Body(job, ci)) == Ok(rawShards) && |rawShards| == job.T()
    requires store.dirs == Stored(job, nonces, dirs0, counter)
    modifies store
    ensures store.dirs == Stored(job, nonces, dirs0, next)
    ensures next == StopsAt(counter, counter + |rawShards|, failAt)
  {
    hide *;
    Positive(job);
    next := counter;
    for si := 0 to |rawShards|
      invariant next == counter + si
      invariant forall f :: failAt == Some(f) ==> !(counter <= f < next)
      invariant store.dirs == Stored(job, nonces, dirs0, next)
    {
      if failAt == Some(next) {
        StopsHere(counter, |rawShards|, failAt, next);
        return;
      }
      StoreShard(job, nonces, store, rawShards, ci, si, next, dirs0);
      next := next + 1;
    }
    StopsHere(counter, |rawShards|, failAt, next);
  }

  /** Where a run of indices from `from` to `to` stops. */
  function StopsAt(from: nat, to: nat, failAt: Option<nat>): nat {
    if failAt.Some? && from <= failAt.value < to then failAt.value else to
  }

  lemma StopsHere(from: nat, n: nat, failAt: Option<nat>, next: nat)
    requires forall f :: failAt == Some(f) ==> !(from <= f < next)
    requires next == from + n || (failAt == Some(next) && from <= next < from + n)
    ensures next == StopsAt(from, from + n, failAt)
  {
    assert failAt.Some? ==> failAt == Some(failAt.value);
  }

  /** One chunk of the file: compress, split, store. */
  method StoreNextChunk(job: Job, nonces: Nonces, store: Storage.Store, chunk: Chunk, ci: nat, counter: nat,
                        failAt: Option<nat>, ghost dirs0: Storage.Dirs)
    returns (next: nat)
    requires RsContract(job.lib, job.s) && ShaContract(job.lib) && ci < job.Chunks() && counter == ci * job.T()
    requires |Pieces(job.content, DEFAULT_CHUNK_SIZE)[ci]| <= DEFAULT_CHUNK_SIZE
    requires chunk == ChunkOf(job.lib, ci, Pieces(job.content, DEFAULT_CHUNK_SIZE)[ci], DEFAULT_CHUNK_SIZE)
    requires store.dirs == Stored(job, nonces, dirs0, counter)
    modifies store
    ensures store.dirs == Stored(job, nonces, dirs0, next)
    ensures next == StopsAt(counter, counter + job.T(), failAt)
  {
    var piece := chunk.data[..chunk.size];
    assert piece == Pieces(job.content, DEFAULT_CHUNK_SIZE)[ci];
    ChunkSplits(job, ci);
    var rawShards := SplitChunkToShards(job.lib, job.s, Compress.Compress(job.lib, piece));
    next := StoreChunk(job, nonces, store, rawShards.value, ci, counter, failAt, dirs0);
  }

  /** The outer loop over the chunks of the file. */
  method StoreFile(job: Job, nonces: Nonces, store: Storage.Store, chunks: seq<Chunk>, failAt: Option<nat>) returns (next: nat)
    requires RsContract(job.lib, job.s) && ShaContract(job.lib)
    requires ChunksOf(job.lib, chunks, Pieces(job.content, DEFAULT_CHUNK_SIZE), DEFAULT_CHUNK_SIZE)
    modifies store
    ensures store.dirs == Stored(job, nonces, old(store.dirs), next)
    ensures job.Shards() >= 0 && next == StopsAt(0, job.Shards(), failAt)
  {
    hide *;
    CountIsShards(job, chunks);
    StoredNothing(job, nonces, store.dirs);
    next := 0;
    for ci := 0 to |chunks|
      invariant next == ci * job.T()
      invariant forall f :: failAt == Some(f) ==> f >= next
      invariant store.dirs == Stored(job, nonces, old(store.dirs), next)
    {
      ChunkAt(job, chunks, ci);
      LocationBounds(|chunks|, ci, job.T());
      ghost var from := next;
      next := StoreNextChunk(job, nonces, store, chunks[ci], ci, next, failAt, old(store.dirs));
      Widened(from, from + job.T(), job.Shards(), failAt);
      if failAt == Some(next) {
        return;
      }
    }
    StopsHere(0, next, failAt, next);
  }

  lemma StoredNothing(job: Job, nonces: Nonces, dirs: Storage.Dirs)
    requires ShaContract(job.lib) && job.T() > 0
    ensures Stored(job, nonces, dirs, 0) == dirs
  {
  }

  /** A stop inside one chunk is a stop inside the file. */
  lemma Widened(from: nat, to: nat, end: nat, failAt: Option<nat>)
    requires from <= to <= end && forall f :: failAt == Some(f) ==> f >= from
    ensures failAt == Some(StopsAt(from, to, failAt)) ==>
      StopsAt(0, end, failAt) == StopsAt(from, to, failAt)
    ensures StopsAt(from, to, failAt) == to || (failAt == Some(StopsAt(from, to, failAt)) && StopsAt(from, to, failAt) < to)
    ensures StopsAt(from, to, failAt) == to ==> forall f :: failAt == Some(f) ==> f >= to
  {
    assert failAt.Some? ==> failAt == Some(failAt.value);
  }

  lemma ChunkAt(job: Job, chunks: seq<Chunk>, ci: nat)
    requires ChunksOf(job.lib, chunks, Pieces(job.content, DEFAULT_CHUNK_SIZE), DEFAULT_CHUNK_SIZE) && ci < |chunks|
    ensures ci < job.Chunks() && |Pieces(job.content, DEFAULT_CHUNK_SIZE)[ci]| <= DEFAULT_CHUNK_SIZE
    ensures chunks[ci] == ChunkOf(job.lib, ci, Pieces(job.content, DEFAULT_CHUNK_SIZE)[ci], DEFAULT_CHUNK_SIZE)
  {
  }

  /** The store when a backup stops after n shards; the write of shard n may have left debris. */
  ghost function StoppedAt(job: Job, nonces: Nonces, dirs: Storage.Dirs, n: nat, debris: Option<bytes>): Storage.Dirs
    requires ShaContract(job.lib) && job.T() > 0
  {
    var stored := Stored(job, nonces, dirs, n);
    if n < job.Shards() && debris.Some? then Storage.Torn(stored, StoreKey(job.Hash()), n, debris) else stored
  }

  /** How a backup goes wrong: the source cannot be read, the write of a shard fails, or the
      file is gone when the manifest asks for its modification time. */
  datatype Faults = Faults(readable: bool, failAt: Option<nat>, debris: Option<bytes>, statOk: bool)

  const NO_FAULTS := Faults(true, None, None, true)

  /** How many shards are stored. */
  function Reached(job: Job, f: Faults): nat
    requires job.Shards() >= 0
  {
    if f.readable then StopsAt(0, job.Shards(), f.failAt) else 0
  }

  /** What a backup does to the store and the manifest: the manifest is touched only once
      every shard is stored, and a failure leaves the shards stored so far and the debris. */
  ghost predicate Outcome(job: Job, nonces: Nonces, dirs: Storage.Dirs, es: Entries, path: string, fileId: string, f: Faults,
                          r: Result<ManifestEntry>, dirs': Storage.Dirs, es': Entries)
    requires RsContract(job.lib, job.s) && ShaContract(job.lib)
  {
    && job.Shards() >= 0
    && dirs' == StoppedAt(job, nonces, dirs, Reached(job, f), if f.readable then f.debris else None)
    && (r.Ok? <==> f.readable && f.statOk && Reached(job, f) == job.Shards())
    && (r.Err? ==> es' == es)
    && (r.Ok? ==> NewEntry(job, es, path, fileId, r.value) && es' == es[fileId := r.value])
  }

  method ChunkFile(job: Job, readable: bool) returns (r: Result<seq<Chunk>>)
    ensures r.Ok? <==> readable
    ensures r.Ok? ==> ChunksOf(job.lib, r.value, Pieces(job.content, DEFAULT_CHUNK_SIZE), DEFAULT_CHUNK_SIZE)
  {
    r := ChunkReader(job.lib, job.content, DEFAULT_CHUNK_SIZE, !readable);
  }

  /** backupOneFile. */
  method BackupOneFile(job: Job, nonces: Nonces, store: Storage.Store, mf: Manifest, path: string,
                       f: Faults, fileId: string, modified: Option<Time>, now: Time)
    returns (r: Result<ManifestEntry>)
    requires RsContract(job.lib, job.s) && ShaContract(job.lib) && f.statOk == modified.Some?
    requires Valid(mf.entries) && IsUuid(fileId) && fileId !in mf.entries
    modifies store, mf
    ensures Valid(mf.entries)
    ensures Outcome(job, nonces, old(store.dirs), old(mf.entries), path, fileId, f, r, store.dirs, mf.entries)
    ensures r.Ok? <==> f.readable && modified.Some? && (f.failAt.Some? ==> f.failAt.value >= job.Shards())
  {
    hide *;
    ghost var dirs0, es0 := old(store.dirs), old(mf.entries);
    StopsShort(job, f);
    Positive(job);
    HashSize(job);
    var chunks := ChunkFile(job, f.readable);
    if chunks.Err? {
      UnreadableOutcome(job, nonces, dirs0, es0, path, fileId, f, chunks.error);
      return Err(chunks.error);
    }
    var hash := FileHashFromChunks(job.lib, job.content, chunks.value);
    HashIs(job);
    var count := StoreFile(job, nonces, store, chunks.value, f.failAt);
    CountIsShards(job, chunks.value);
    if count != |chunks.value| * job.T() {
      if f.debris.Some? {
        store.FailShard(StoreKey(job.Hash()), count, f.debris.value);
      }
      StoppedOutcome(job, nonces, dirs0, es0, path, fileId, f, "store shard");
      return Err("store shard");
    }
    r := mf.Upsert(path, hash, |job.content|, job.s, LocationList(job, count), fileId, modified, now);
    if r.Ok? {
      CompressedStaysValid(es0, r.value);
      DoneOutcome(job, nonces, dirs0, es0, f, r.value);
      r := Ok(r.value.(compressed := true));
      mf.entries := mf.entries[fileId := r.value];
      assert mf.entries == es0[fileId := r.value];
    } else {
      StoppedOutcome(job, nonces, dirs0, es0, path, fileId, f, r.error);
    }
  }

  lemma CountIsShards(job: Job, chunks: seq<Chunk>)
    requires RsContract(job.lib, job.s)
    requires ChunksOf(job.lib, chunks, Pieces(job.content, DEFAULT_CHUNK_SIZE), DEFAULT_CHUNK_SIZE)
    ensures |chunks| * job.T() == job.Shards() >= 0 && job.T() > 0
  {
  }

  lemma HashIs(job: Job)
    ensures job.Hash() == FileHash(job.lib, job.content)
  {
  }

  lemma StopsShort(job: Job, f: Faults)
    requires RsContract(job.lib, job.s)
    ensures job.Shards() >= 0
    ensures StopsAt(0, job.Shards(), f.failAt) == job.Shards() <==> (f.failAt.Some? ==> f.failAt.value >= job.Shards())
  {
  }

  lemma UnreadableOutcome(job: Job, nonces: Nonces, dirs: Storage.Dirs, es: Entries, path: string, fileId: string,
                          f: Faults, error: string)
    requires RsContract(job.lib, job.s) && ShaContract(job.lib) && !f.readable
    ensures Outcome(job, nonces, dirs, es, path, fileId, f, Err(error), dirs, es)
  {
    assert job.Shards() == job.Chunks() * job.T() >= 0;
  }

  lemma StoppedOutcome(job: Job, nonces: Nonces, dirs: Storage.Dirs, es: Entries, path: string, fileId: string,
                       f: Faults, error: string)
    requires RsContract(job.lib, job.s) && ShaContract(job.lib) && |job.Hash()| == HASH_SIZE && job.Shards() >= 0 && f.readable
    requires !f.statOk || StopsAt(0, job.Shards(), f.failAt) != job.Shards()
    ensures var n := StopsAt(0, job.Shards(), f.failAt);
      && job.T() > 0 && n <= job.Shards()
      && Outcome(job, nonces, dirs, es, path, fileId, f, Err(error),
                 if n != job.Shards() && f.debris.Some?
                 then Storage.Torn(Stored(job, nonces, dirs, n), StoreKey(job.Hash()), n, Some(f.debris.value))
                 else Stored(job, nonces, dirs, n), es)
  {
    hide RsContract, ShaContract, Stored;
    Positive(job);
  }

  lemma DoneOutcome(job: Job, nonces: Nonces, dirs: Storage.Dirs, es: Entries, f: Faults, e: ManifestEntry)
    requires RsContract(job.lib, job.s) && ShaContract(job.lib) && job.Shards() >= 0 && f.readable && f.statOk
    requires StopsAt(0, job.Shards(), f.failAt) == job.Shards() && IsNextVersion(es, e.path, e.version)
    requires e == ManifestEntry(e.fileId, e.path, Hex(job.Hash()), |job.content|, e.modified, job.s,
                                LocationList(job, job.Shards()), e.version, e.backedAt, false)
    ensures var e' := e.(compressed := true);
      Outcome(job, nonces, dirs, es, e.path, e.fileId, f, Ok(e'),
              Stored(job, nonces, dirs, StopsAt(0, job.Shards(), f.failAt)), es[e.fileId := e'])
  {
  }

  /** Marking the entry compressed changes neither its path nor its version. */
  lemma CompressedStaysValid(es: Entries, e: ManifestEntry)
    requires Valid(es[e.fileId := e])
    ensures Valid(es[e.fileId := e.(compressed := true)])
  {
    var a, b := es[e.fileId := e], es[e.fileId := e.(compressed := true)];
    assert forall id :: id in b ==>
      id in a && b[id].path == a[id].path && b[id].fileId == a[id].fileId && VersionOf(b[id]) == VersionOf(a[id]);
  }

  /** The entry a completed backup adds. */
  ghost predicate NewEntry(job: Job, es: Entries, path: string, fileId: string, e: ManifestEntry)
    requires job.T() > 0
  {
    && e.fileId == fileId && e.path == path && IsNextVersion(es, path, e.version)
    && e.hash == Hex(job.Hash()) && e.size == |job.content| && e.scheme == job.s
    && job.Shards() >= 0 && e.shards == LocationList(job, job.Shards()) && e.compressed
  }
}
