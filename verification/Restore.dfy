/** internal/api/restore.go: gather, decrypt, rebuild, trim, and re-check the hash of hashes. */
module Restore {
  import opened Base
  import opened Foreign
  import opened Protocol
  import opened Chunker
  import opened Compress
  import opened Codec
  import Storage

  /** Where ciphertexts may come from: the local store, then the buddies in registry order. */
  datatype Sources = Sources(local: Storage.Dirs, buddies: seq<map<(string, int), bytes>>)

  datatype Restored = Restored(output: bytes, integrityPassed: bool)

  /** The first buddy that answers wins, whatever it answers. */
  function FirstReply(buddies: seq<map<(string, int), bytes>>, key: string, index: int): Option<bytes> {
    if buddies == [] then None
    else if (key, index) in buddies[0] then Some(buddies[0][(key, index)])
    else FirstReply(buddies[1..], key, index)
  }

  function Fetch(src: Sources, key: string, index: int): Option<bytes> {
    match Storage.Get(src.local, key, index)
    case Some(blob) => Some(blob)
    case None => FirstReply(src.buddies, key, index)
  }

  /** The plaintext of one shard; empty when it is missing or does not decrypt. */
  function OpenShard(lib: Lib, fileKey: bytes, src: Sources, key: string, loc: ShardLocation): bytes {
    match Fetch(src, key, loc.shardIndex)
    case None => []
    case Some(blob) =>
      match DecryptShard(lib, fileKey, loc.shardIndex, blob)
      case None => []
      case Some(p) => p
  }

  function Gather(lib: Lib, fileKey: bytes, src: Sources, key: string, locs: seq<ShardLocation>): (raw: seq<bytes>)
    ensures |raw| == |locs|
  {
    seq(|locs|, i requires 0 <= i < |locs| => OpenShard(lib, fileKey, src, key, locs[i]))
  }

  /** Decompress, or cut a legacy chunk to the size it must have. */
  function Finish(lib: Lib, entry: ManifestEntry, merged: bytes, last: bool): Result<bytes> {
    if entry.compressed then Decompress(lib, merged)
    else
      var rem := entry.size % DEFAULT_CHUNK_SIZE;
      var expected := if last && rem != 0 then rem else DEFAULT_CHUNK_SIZE;
      Ok(if expected < |merged| then merged[..expected] else merged)
  }

  predicate Divides(entry: ManifestEntry, n: nat) {
    entry.scheme.dataShards > 0 && entry.scheme.parityShards >= 0
    && |entry.shards| == n * entry.scheme.Total()
  }

  function Locations(entry: ManifestEntry, n: nat, ci: nat): (locs: seq<ShardLocation>)
    requires Divides(entry, n) && ci < n
    ensures |locs| == entry.scheme.Total()
  {
    LocationBounds(n, ci, entry.scheme.Total());
    entry.shards[ci * entry.scheme.Total()..(ci + 1) * entry.scheme.Total()]
  }

  lemma LocationBounds(n: nat, ci: nat, t: nat)
    requires ci < n
    ensures 0 <= ci * t <= (ci + 1) * t <= n * t && (ci + 1) * t == ci * t + t
  {
    var rest := n - ci - 1;
    assert (ci + 1 + rest) * t == ci * t + t + rest * t;
  }

  function RestoreChunk(lib: Lib, fileKey: bytes, src: Sources, key: string,
                        entry: ManifestEntry, n: nat, ci: nat): Result<bytes>
    requires RsShape(lib) && Divides(entry, n) && ci < n
  {
    match Merge(lib, entry.scheme, Gather(lib, fileKey, src, key, Locations(entry, n, ci)))
    case Err(e) => Err(e)
    case Ok(merged) => Finish(lib, entry, merged, ci == n - 1)
  }

  /** The first `upTo` chunks, or the first error. */
  function RestoreChunks(lib: Lib, fileKey: bytes, src: Sources, key: string,
                         entry: ManifestEntry, n: nat, upTo: nat): Result<seq<bytes>>
    requires RsShape(lib) && Divides(entry, n) && upTo <= n
  {
    if upTo == 0 then Ok([])
    else match RestoreChunks(lib, fileKey, src, key, entry, n, upTo - 1)
      case Err(e) => Err(e)
      case Ok(done) =>
        match RestoreChunk(lib, fileKey, src, key, entry, n, upTo - 1)
        case Err(e) => Err(e)
        case Ok(chunk) => Ok(done + [chunk])
  }

  function Hashes(lib: Lib, chunks: seq<bytes>): (h: seq<bytes>)
    ensures |h| == |chunks|
  {
    seq(|chunks|, i requires 0 <= i < |chunks| => lib.sha(chunks[i]))
  }

  /** fileHashFromChunks: the hash of the chunk hashes. */
  function HashOfHashes(lib: Lib, chunks: seq<bytes>): bytes {
    lib.sha(Concat(Hashes(lib, chunks)))
  }

  function FileHash(lib: Lib, content: bytes): bytes {
    HashOfHashes(lib, Pieces(content, DEFAULT_CHUNK_SIZE))
  }

  function HexToHash(s: string): Result<bytes> {
    match Unhex(s)
    case None => Err("hexToHash: not hex")
    case Some(b) => if |b| != HASH_SIZE then Err("hexToHash: not 32 bytes") else Ok(b)
  }

  function CheckHash(lib: Lib, entry: ManifestEntry, chunks: seq<bytes>): Result<Restored> {
    if entry.hash == "" then Ok(Restored(Concat(chunks), false))
    else if Hex(HashOfHashes(lib, chunks)) != entry.hash then Err("INTEGRITY CHECK FAILED")
    else Ok(Restored(Concat(chunks), true))
  }

  /** What Restore works out before it touches a shard. */
  datatype Plan = Plan(fileKey: bytes, key: string, chunks: nat)

  function PlanFor(lib: Lib, masterKey: bytes, entry: ManifestEntry): (r: Result<Plan>)
    requires RsShape(lib)
    ensures r.Ok? ==> Divides(entry, r.value.chunks) && entry.hash != ""
  {
    match HexToHash(entry.hash)
    case Err(e) => Err(e)
    case Ok(hash) =>
      if !lib.schemeOk(entry.scheme) then Err("encoder")
      else if |entry.shards| % entry.scheme.Total() != 0 then Err("shard count not divisible")
      else Ok(Plan(lib.fileKey(masterKey, hash), StoreKey(hash), |entry.shards| / entry.scheme.Total()))
  }

  function RestoreEntry(lib: Lib, masterKey: bytes, entry: ManifestEntry, src: Sources): Result<Restored>
    requires RsShape(lib)
  {
    match PlanFor(lib, masterKey, entry)
    case Err(e) => Err(e)
    case Ok(plan) =>
      match RestoreChunks(lib, plan.fileKey, src, plan.key, entry, plan.chunks, plan.chunks)
      case Err(e) => Err(e)
      case Ok(chunks) => CheckHash(lib, entry, chunks)
  }

  /** Buddy b has the shard, and no buddy before it has. */
  predicate HoldsFirst(buddies: seq<map<(string, int), bytes>>, key: string, index: int, b: int) {
    && 0 <= b < |buddies| && (key, index) in buddies[b]
    && forall c :: 0 <= c < b ==> (key, index) !in buddies[c]
  }

  /** The reply is that of the earliest buddy that has the shard, and there is none only if no buddy has it. */
  lemma {:induction false} FirstReplyIff(buddies: seq<map<(string, int), bytes>>, key: string, index: int)
    ensures FirstReply(buddies, key, index).None? <==> forall b :: 0 <= b < |buddies| ==> (key, index) !in buddies[b]
    ensures forall d :: FirstReply(buddies, key, index) == Some(d) <==>
      exists b :: HoldsFirst(buddies, key, index, b) && buddies[b][(key, index)] == d
  {
    var b := Earliest(buddies, key, index, 0);
    if b == |buddies| {
      SkipsTo(buddies, key, index, |buddies|);
      assert buddies[|buddies|..] == [];
    } else {
      SkipsTo(buddies, key, index, b);
      assert HoldsFirst(buddies, key, index, b) && FirstReply(buddies, key, index) == Some(buddies[b][(key, index)]);
      assert forall c :: HoldsFirst(buddies, key, index, c) ==> c == b;
    }
  }

  lemma {:induction false} Earliest(buddies: seq<map<(string, int), bytes>>, key: string, index: int, from: nat) returns (b: nat)
    requires from <= |buddies| && forall c :: 0 <= c < from ==> (key, index) !in buddies[c]
    ensures b <= |buddies| && (b < |buddies| ==> (key, index) in buddies[b])
    ensures forall c :: 0 <= c < b ==> (key, index) !in buddies[c]
    decreases |buddies| - from
  {
    b := from;
    if from < |buddies| && (key, index) !in buddies[from] {
      b := Earliest(buddies, key, index, from + 1);
    }
  }

  lemma {:induction false} SkipsTo(buddies: seq<map<(string, int), bytes>>, key: string, index: int, b: nat)
    requires b <= |buddies| && forall c :: 0 <= c < b ==> (key, index) !in buddies[c]
    ensures FirstReply(buddies, key, index) == FirstReply(buddies[b..], key, index)
  {
    if b == 0 {
      assert buddies[0..] == buddies;
    } else {
      SkipsTo(buddies, key, index, b - 1);
      assert buddies[b - 1..][1..] == buddies[b..];
    }
  }

  // ---- The loops -----------------------------------------------------------

  method TryFetchFromBuddies(buddies: seq<map<(string, int), bytes>>, key: string, index: int)
    returns (r: Option<bytes>)
    ensures r == FirstReply(buddies, key, index)
    ensures r.None? <==> forall b :: 0 <= b < |buddies| ==> (key, index) !in buddies[b]
    ensures forall d :: r == Some(d) <==> exists b :: HoldsFirst(buddies, key, index, b) && buddies[b][(key, index)] == d
  {
    FirstReplyIff(buddies, key, index);
    for i := 0 to |buddies|
      invariant FirstReply(buddies, key, index) == FirstReply(buddies[i..], key, index)
    {
      assert buddies[i..][1..] == buddies[i + 1..];
      if (key, index) in buddies[i] {
        return Some(buddies[i][(key, index)]);
      }
    }
    assert buddies[|buddies|..] == [];
    r := None;
  }

  method GatherShards(lib: Lib, fileKey: bytes, src: Sources, key: string, entry: ManifestEntry, n: nat, ci: nat)
    returns (raw: seq<bytes>)
    requires Divides(entry, n) && ci < n
    ensures raw == Gather(lib, fileKey, src, key, Locations(entry, n, ci))
  {
    var t := entry.scheme.Total();
    LocationBounds(n, ci, t);
    raw := [];
    for si := 0 to t
      invariant raw == Gather(lib, fileKey, src, key, Locations(entry, n, ci))[..si]
    {
      var loc := entry.shards[ci * t + si];
      assert loc == Locations(entry, n, ci)[si];
      var blob := Storage.Get(src.local, key, loc.shardIndex);
      if blob.None? {
        blob := TryFetchFromBuddies(src.buddies, key, loc.shardIndex);
      }
      var plain: bytes := [];
      if blob.Some? {
        var clear := DecryptShard(lib, fileKey, loc.shardIndex, blob.value);
        if clear.Some? {
          plain := clear.value;
        }
      }
      assert plain == OpenShard(lib, fileKey, src, key, loc);
      raw := raw + [plain];
    }
  }

  /** Once a chunk fails the whole restore does. */
  lemma {:induction false} ErrorSticks(lib: Lib, fileKey: bytes, src: Sources, key: string,
                                       entry: ManifestEntry, n: nat, i: nat, j: nat)
    requires RsShape(lib) && Divides(entry, n) && i <= j <= n
    requires RestoreChunks(lib, fileKey, src, key, entry, n, i).Err?
    ensures RestoreChunks(lib, fileKey, src, key, entry, n, j) == RestoreChunks(lib, fileKey, src, key, entry, n, i)
  {
    if i < j {
      ErrorSticks(lib, fileKey, src, key, entry, n, i, j - 1);
    }
  }

  method RestoreOne(lib: Lib, fileKey: bytes, src: Sources, key: string, entry: ManifestEntry, n: nat, ci: nat)
    returns (r: Result<bytes>)
    requires RsShape(lib) && Divides(entry, n) && ci < n
    ensures r == RestoreChunk(lib, fileKey, src, key, entry, n, ci)
  {
    var raw := GatherShards(lib, fileKey, src, key, entry, n, ci);
    r := MergeShardToChunk(lib, entry.scheme, raw);
    if r.Ok? {
      r := Finish(lib, entry, r.value, ci == n - 1);
    }
  }

  lemma HashesSnoc(lib: Lib, chunks: seq<bytes>, chunk: bytes)
    ensures Concat(chunks + [chunk]) == Concat(chunks) + chunk
    ensures Concat(Hashes(lib, chunks + [chunk])) == Concat(Hashes(lib, chunks)) + lib.sha(chunk)
  {
    ConcatSnoc(chunks, chunk);
    ConcatSnoc(Hashes(lib, chunks), lib.sha(chunk));
    assert Hashes(lib, chunks + [chunk]) == Hashes(lib, chunks) + [lib.sha(chunk)];
  }

  /** The chunk loop: write each chunk, feed its hash to the running hash. */
  method RestoreLoop(lib: Lib, fileKey: bytes, src: Sources, key: string, entry: ManifestEntry, n: nat)
    returns (r: Result<(bytes, bytes)>)
    requires RsShape(lib) && Divides(entry, n)
    ensures RestoreChunks(lib, fileKey, src, key, entry, n, n).Err? ==>
      r == Err(RestoreChunks(lib, fileKey, src, key, entry, n, n).error)
    ensures RestoreChunks(lib, fileKey, src, key, entry, n, n).Ok? ==>
      var chunks := RestoreChunks(lib, fileKey, src, key, entry, n, n).value;
      r == Ok((Concat(chunks), Concat(Hashes(lib, chunks))))
  {
    var out, hashed: bytes := [], [];
    ghost var chunks: seq<bytes> := [];
    for ci := 0 to n
      invariant RestoreChunks(lib, fileKey, src, key, entry, n, ci) == Ok(chunks)
      invariant out == Concat(chunks) && hashed == Concat(Hashes(lib, chunks))
    {
      var chunk := RestoreOne(lib, fileKey, src, key, entry, n, ci);
      if chunk.Err? {
        ErrorSticks(lib, fileKey, src, key, entry, n, ci + 1, n);
        return Err(chunk.error);
      }
      HashesSnoc(lib, chunks, chunk.value);
      out, hashed, chunks := out + chunk.value, hashed + lib.sha(chunk.value), chunks + [chunk.value];
    }
    r := Ok((out, hashed));
  }

  method Restore(lib: Lib, masterKey: bytes, entry: ManifestEntry, src: Sources) returns (r: Result<Restored>)
    requires RsShape(lib)
    ensures r == RestoreEntry(lib, masterKey, entry, src)
  {
    hide Unhex, Hex, StoreKey, RestoreChunks, Hashes, Concat;
    var hash := HexToHash(entry.hash);
    if hash.Err? {
      return Err(hash.error);
    }
    var fileKey, key := lib.fileKey(masterKey, hash.value), StoreKey(hash.value);
    if !lib.schemeOk(entry.scheme) {
      return Err("encoder");
    }
    var t, total := entry.scheme.Total(), |entry.shards|;
    if total % t != 0 {
      return Err("shard count not divisible");
    }
    var loop := RestoreLoop(lib, fileKey, src, key, entry, total / t);
    if loop.Err? {
      return Err(loop.error);
    }
    var (out, hashed) := loop.value;
    if entry.hash == "" {
      r := Ok(Restored(out, false));
    } else if Hex(lib.sha(hashed)) != entry.hash {
      r := Err("INTEGRITY CHECK FAILED");
    } else {
      r := Ok(Restored(out, true));
    }
  }

  // ---- A restore that succeeds is right, whatever the stores hold ----------

  /** Equal hash-of-hashes: equal chunk lists, or two strings with one digest. */
  lemma SameHashSameChunks(lib: Lib, a: seq<bytes>, b: seq<bytes>) returns (x: bytes, y: bytes)
    requires ShaContract(lib) && HashOfHashes(lib, a) == HashOfHashes(lib, b)
    ensures a == b || Collision(lib, x, y)
  {
    x, y := Concat(Hashes(lib, a)), Concat(Hashes(lib, b));
    if x == y {
      ConcatInjective(Hashes(lib, a), Hashes(lib, b), HASH_SIZE);
      if a != b {
        assert |a| == |Hashes(lib, a)| == |b|;
        var i :| 0 <= i < |a| && a[i] != b[i];
        assert Hashes(lib, a)[i] == Hashes(lib, b)[i];
        x, y := a[i], b[i];
      }
    }
  }

  /** A successful restore concatenates chunks whose hash of hashes is the recorded one. */
  lemma RestoredChunks(lib: Lib, masterKey: bytes, entry: ManifestEntry, src: Sources) returns (chunks: seq<bytes>)
    requires RsShape(lib) && RestoreEntry(lib, masterKey, entry, src).Ok?
    ensures RestoreEntry(lib, masterKey, entry, src).value == Restored(Concat(chunks), true)
    ensures Hex(HashOfHashes(lib, chunks)) == entry.hash
  {
    var plan := PlanFor(lib, masterKey, entry).value;
    chunks := RestoreChunks(lib, plan.fileKey, src, plan.key, entry, plan.chunks, plan.chunks).value;
  }

  /** For any store and buddy contents, and any shard list and sizes in the entry:
      success means the check passed and the output is the file whose hash the
      entry records, unless a SHA-256 collision is at hand. */
  lemma RestoreSound(lib: Lib, masterKey: bytes, entry: ManifestEntry, src: Sources, original: bytes)
    returns (x: bytes, y: bytes)
    requires ShaContract(lib) && RsShape(lib)
    requires entry.hash == Hex(FileHash(lib, original))
    requires RestoreEntry(lib, masterKey, entry, src).Ok?
    ensures var r := RestoreEntry(lib, masterKey, entry, src).value;
      r.integrityPassed && (r.output == original || Collision(lib, x, y))
  {
    var chunks := RestoredChunks(lib, masterKey, entry, src);
    HexInjective(HashOfHashes(lib, chunks), FileHash(lib, original));
    x, y := SameHashSameChunks(lib, chunks, Pieces(original, DEFAULT_CHUNK_SIZE));
    PiecesPartition(original, DEFAULT_CHUNK_SIZE);
  }

  // ---- Exactly when a restore succeeds -------------------------------------

  /** What was split into shards for each chunk: its compressed form, or for a legacy
      entry the chunk itself with any amount of padding. */
  ghost predicate BodiesOf(lib: Lib, compressed: bool, bodies: seq<bytes>, pieces: seq<bytes>) {
    && |bodies| == |pieces|
    && forall i :: 0 <= i < |bodies| ==>
         if compressed then bodies[i] == Compress.Compress(lib, pieces[i]) else pieces[i] <= bodies[i]
  }

  /** The entry a backup of `content` leaves behind. */
  ghost predicate EntryFor(lib: Lib, entry: ManifestEntry, content: bytes, bodies: seq<bytes>) {
    && entry.hash == Hex(FileHash(lib, content))
    && entry.size == |content|
    && BodiesOf(lib, entry.compressed, bodies, Pieces(content, DEFAULT_CHUNK_SIZE))
    && Divides(entry, |bodies|)
  }

  function RawShards(lib: Lib, masterKey: bytes, entry: ManifestEntry, src: Sources, hash: bytes, n: nat, ci: nat): seq<bytes>
    requires |hash| == HASH_SIZE && Divides(entry, n) && ci < n
  {
    Gather(lib, lib.fileKey(masterKey, hash), src, StoreKey(hash), Locations(entry, n, ci))
  }

  /** Every shard that arrives and decrypts is the one that was written. */
  ghost predicate GenuineOrLost(lib: Lib, masterKey: bytes, entry: ManifestEntry, src: Sources, hash: bytes, bodies: seq<bytes>)
    requires |hash| == HASH_SIZE && Divides(entry, |bodies|)
  {
    forall ci :: 0 <= ci < |bodies| && Split(lib, entry.scheme, bodies[ci]).Ok? ==>
      Erasure(RawShards(lib, masterKey, entry, src, hash, |bodies|, ci), Split(lib, entry.scheme, bodies[ci]).value)
  }

  /** Every chunk has dataShards shards left. */
  ghost predicate Enough(lib: Lib, masterKey: bytes, entry: ManifestEntry, src: Sources, hash: bytes, n: nat)
    requires |hash| == HASH_SIZE && Divides(entry, n)
  {
    forall ci :: 0 <= ci < n ==>
      Present(RawShards(lib, masterKey, entry, src, hash, n, ci)) >= entry.scheme.dataShards
  }

  /** Undoing compression or cutting padding gives the chunk back. */
  lemma FinishBody(lib: Lib, entry: ManifestEntry, content: bytes, bodies: seq<bytes>, ci: nat, pad: nat)
    requires ZstdContract(lib) && EntryFor(lib, entry, content, bodies) && ci < |bodies|
    ensures bodies[ci] != []
    ensures Finish(lib, entry, bodies[ci] + Zeros(pad), ci == |bodies| - 1)
         == Ok(Pieces(content, DEFAULT_CHUNK_SIZE)[ci])
  {
    PiecesPartition(content, DEFAULT_CHUNK_SIZE);
    var piece := Pieces(content, DEFAULT_CHUNK_SIZE)[ci];
    if entry.compressed {
      SurvivesPadding(lib, piece, Zeros(pad));
    } else {
      var merged := bodies[ci] + Zeros(pad);
      assert piece <= bodies[ci] && merged[..|piece|] == piece;
      assert |piece| == if ci == |bodies| - 1 then LastSize(|content|, DEFAULT_CHUNK_SIZE) else DEFAULT_CHUNK_SIZE;
      assert |merged| == |piece| ==> merged == piece;
    }
  }

  /** One chunk: restored exactly when enough genuine shards arrive. */
  lemma RestoreChunkExact(lib: Lib, masterKey: bytes, entry: ManifestEntry, src: Sources,
                          content: bytes, bodies: seq<bytes>, hash: bytes, ci: nat)
    requires Contracts(lib, entry.scheme) && EntryFor(lib, entry, content, bodies) && ci < |bodies|
    requires hash == FileHash(lib, content) && GenuineOrLost(lib, masterKey, entry, src, hash, bodies)
    ensures var r := RestoreChunk(lib, lib.fileKey(masterKey, hash), src, StoreKey(hash), entry, |bodies|, ci);
      if Present(RawShards(lib, masterKey, entry, src, hash, |bodies|, ci)) >= entry.scheme.dataShards
      then r == Ok(Pieces(content, DEFAULT_CHUNK_SIZE)[ci]) else r.Err?
  {
    var raw := RawShards(lib, masterKey, entry, src, hash, |bodies|, ci);
    var pad := Padding(entry.scheme, |bodies[ci]|);
    FinishBody(lib, entry, content, bodies, ci, pad);
    MergeSplit(lib, entry.scheme, bodies[ci], raw);
  }

  lemma {:induction false} AllChunksRestored(lib: Lib, fileKey: bytes, src: Sources, key: string,
                                             entry: ManifestEntry, n: nat, pieces: seq<bytes>, upTo: nat)
    requires RsShape(lib) && Divides(entry, n) && upTo <= n == |pieces|
    requires forall ci :: 0 <= ci < upTo ==> RestoreChunk(lib, fileKey, src, key, entry, n, ci) == Ok(pieces[ci])
    ensures RestoreChunks(lib, fileKey, src, key, entry, n, upTo) == Ok(pieces[..upTo])
  {
    if upTo > 0 {
      AllChunksRestored(lib, fileKey, src, key, entry, n, pieces, upTo - 1);
      assert pieces[..upTo] == pieces[..upTo - 1] + [pieces[upTo - 1]];
    }
  }

  lemma OneChunkLost(lib: Lib, fileKey: bytes, src: Sources, key: string, entry: ManifestEntry, n: nat, ci: nat)
    requires RsShape(lib) && Divides(entry, n) && ci < n && RestoreChunk(lib, fileKey, src, key, entry, n, ci).Err?
    ensures RestoreChunks(lib, fileKey, src, key, entry, n, n).Err?
  {
    ErrorSticks(lib, fileKey, src, key, entry, n, ci + 1, n);
  }

  lemma RestoreChunksExact(lib: Lib, masterKey: bytes, entry: ManifestEntry, src: Sources,
                           content: bytes, bodies: seq<bytes>, hash: bytes)
    requires Contracts(lib, entry.scheme) && EntryFor(lib, entry, content, bodies)
    requires hash == FileHash(lib, content) && GenuineOrLost(lib, masterKey, entry, src, hash, bodies)
    ensures var r := RestoreChunks(lib, lib.fileKey(masterKey, hash), src, StoreKey(hash), entry, |bodies|, |bodies|);
      if Enough(lib, masterKey, entry, src, hash, |bodies|)
      then r == Ok(Pieces(content, DEFAULT_CHUNK_SIZE)) else r.Err?
  {
    var n, pieces := |bodies|, Pieces(content, DEFAULT_CHUNK_SIZE);
    var fileKey, key := lib.fileKey(masterKey, hash), StoreKey(hash);
    if Enough(lib, masterKey, entry, src, hash, n) {
      forall ci | 0 <= ci < n ensures RestoreChunk(lib, fileKey, src, key, entry, n, ci) == Ok(pieces[ci]) {
        RestoreChunkExact(lib, masterKey, entry, src, content, bodies, hash, ci);
      }
      AllChunksRestored(lib, fileKey, src, key, entry, n, pieces, n);
      assert pieces[..n] == pieces;
    } else {
      var ci :| 0 <= ci < n && Present(RawShards(lib, masterKey, entry, src, hash, n, ci)) < entry.scheme.dataShards;
      RestoreChunkExact(lib, masterKey, entry, src, content, bodies, hash, ci);
      OneChunkLost(lib, fileKey, src, key, entry, n, ci);
    }
  }

  /** A restore gives back exactly the backed-up bytes and passes its check if and only
      if every chunk still has dataShards genuine shards. */
  lemma RestoreExact(lib: Lib, masterKey: bytes, entry: ManifestEntry, src: Sources, content: bytes, bodies: seq<bytes>)
    requires Contracts(lib, entry.scheme) && EntryFor(lib, entry, content, bodies)
    requires GenuineOrLost(lib, masterKey, entry, src, FileHash(lib, content), bodies)
    ensures Enough(lib, masterKey, entry, src, FileHash(lib, content), |bodies|) ==>
      RestoreEntry(lib, masterKey, entry, src) == Ok(Restored(content, true))
    ensures !Enough(lib, masterKey, entry, src, FileHash(lib, content), |bodies|) ==>
      RestoreEntry(lib, masterKey, entry, src).Err?
  {
    var hash, n, t := FileHash(lib, content), |bodies|, entry.scheme.Total();
    UnhexHex(hash);
    ModIsUnique(|entry.shards|, t, n, 0);
    RestoreChunksExact(lib, masterKey, entry, src, content, bodies, hash);
    PiecesPartition(content, DEFAULT_CHUNK_SIZE);
  }

  // ---- A bad local copy hides the buddies' good ones -----------------------

  type Buddies = seq<map<(string, int), bytes>>

  /** Where the local store has a copy, good or bad, the buddies' answers do not matter;
      elsewhere these two sets of buddies answer alike. */
  ghost predicate SameWhereMissing(local: Storage.Dirs, a: Buddies, b: Buddies, key: string, locs: seq<ShardLocation>) {
    forall i :: 0 <= i < |locs| ==>
      Storage.Get(local, key, locs[i].shardIndex).Some?
      || FirstReply(a, key, locs[i].shardIndex) == FirstReply(b, key, locs[i].shardIndex)
  }

  lemma SameChunk(lib: Lib, fileKey: bytes, local: Storage.Dirs, a: Buddies, b: Buddies, key: string, entry: ManifestEntry, n: nat, ci: nat)
    requires RsShape(lib) && Divides(entry, n) && ci < n && SameWhereMissing(local, a, b, key, entry.shards)
    ensures RestoreChunk(lib, fileKey, Sources(local, a), key, entry, n, ci)
         == RestoreChunk(lib, fileKey, Sources(local, b), key, entry, n, ci)
  {
    hide FirstReply, Finish, Merge;
    var locs := Locations(entry, n, ci);
    LocationBounds(n, ci, entry.scheme.Total());
    forall i: nat | i < |locs|
      ensures OpenShard(lib, fileKey, Sources(local, a), key, locs[i]) == OpenShard(lib, fileKey, Sources(local, b), key, locs[i])
    {
      assert locs[i] == entry.shards[ci * entry.scheme.Total() + i];
    }
    assert Gather(lib, fileKey, Sources(local, a), key, locs) == Gather(lib, fileKey, Sources(local, b), key, locs);
  }

  lemma {:induction false} SameChunks(lib: Lib, fileKey: bytes, local: Storage.Dirs, a: Buddies, b: Buddies, key: string,
                                      entry: ManifestEntry, n: nat, upTo: nat)
    requires RsShape(lib) && Divides(entry, n) && upTo <= n && SameWhereMissing(local, a, b, key, entry.shards)
    ensures RestoreChunks(lib, fileKey, Sources(local, a), key, entry, n, upTo)
         == RestoreChunks(lib, fileKey, Sources(local, b), key, entry, n, upTo)
  {
    hide RestoreChunk, SameWhereMissing, RsShape;
    if upTo > 0 {
      SameChunks(lib, fileKey, local, a, b, key, entry, n, upTo - 1);
      SameChunk(lib, fileKey, local, a, b, key, entry, n, upTo - 1);
    }
  }

  /** A shard that is present locally but does not decrypt is lost even if every buddy
      holds a good copy: with all shards present locally, no buddy changes the result. */
  lemma LocalCopiesHideBuddies(lib: Lib, masterKey: bytes, entry: ManifestEntry, local: Storage.Dirs, a: Buddies, b: Buddies)
    requires RsShape(lib)
    requires PlanFor(lib, masterKey, entry).Ok? ==>
      SameWhereMissing(local, a, b, PlanFor(lib, masterKey, entry).value.key, entry.shards)
    ensures RestoreEntry(lib, masterKey, entry, Sources(local, a)) == RestoreEntry(lib, masterKey, entry, Sources(local, b))
  {
    hide SameWhereMissing, RestoreChunks;
    var plan := PlanFor(lib, masterKey, entry);
    if plan.Ok? {
      var p := plan.value;
      SameChunks(lib, p.fileKey, local, a, b, p.key, entry, p.chunks, p.chunks);
    }
  }
}
