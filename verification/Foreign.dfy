/**
  The libraries the pipeline calls, as functions with contracts: SHA-256, HKDF,
  AES-256-GCM, zstd and the Reed-Solomon codec.

  SHA-256 is NOT assumed injective (no function into 32 bytes is). Results that
  rest on it conclude "or here are two different strings with one digest".
*/
module Foreign {
  import opened Base

  datatype Scheme = Scheme(dataShards: int, parityShards: int) {
    function Total(): int { dataShards + parityShards }
  }

  datatype Lib = Lib(
    sha: bytes -> bytes,
    fileKey: (bytes, bytes) -> bytes,                // HKDF: master key, file hash
    shardKey: (bytes, int) -> bytes,                 // HKDF: file key, shard index
    gcmSeal: (bytes, bytes, bytes) -> bytes,         // key, nonce, plaintext
    gcmOpen: (bytes, bytes, bytes) -> Option<bytes>, // key, nonce, ciphertext and tag
    zstd: bytes -> bytes,
    unzstd: bytes -> Option<bytes>,
    schemeOk: Scheme -> bool,                        // reedsolomon.New succeeds
    parity: (Scheme, seq<bytes>) -> seq<bytes>,      // data shards to parity shards
    rebuild: (Scheme, seq<bytes>) -> Option<seq<bytes>> // an empty shard is a missing one
  )

  const NONCE_SIZE := 12
  const HASH_SIZE := 32
  const MAX_FRAME := 0x1_0000_0000
  const DEFAULT_CHUNK_SIZE := 4 * 1024 * 1024

  ghost predicate ShaContract(lib: Lib) {
    forall x :: |lib.sha(x)| == HASH_SIZE
  }

  ghost predicate Collision(lib: Lib, x: bytes, y: bytes) {
    x != y && lib.sha(x) == lib.sha(y)
  }

  ghost predicate AesContract(lib: Lib) {
    forall key, nonce, p :: |nonce| == NONCE_SIZE ==>
      lib.gcmOpen(key, nonce, lib.gcmSeal(key, nonce, p)) == Some(p)
  }

  ghost predicate ZstdContract(lib: Lib) {
    forall x :: lib.unzstd(lib.zstd(x)) == Some(x)
      && (|x| <= DEFAULT_CHUNK_SIZE ==> |lib.zstd(x)| < MAX_FRAME)
  }

  /** How many shards are there at all. */
  function Present(shards: seq<bytes>): nat {
    if shards == [] then 0 else (if shards[0] == [] then 0 else 1) + Present(shards[1..])
  }

  predicate SameLength(shards: seq<bytes>, n: nat) {
    forall i :: 0 <= i < |shards| ==> |shards[i]| == n
  }

  /** `raw` is `full` with some shards erased. */
  predicate Erasure(raw: seq<bytes>, full: seq<bytes>) {
    |raw| == |full| && forall i :: 0 <= i < |raw| ==> raw[i] == [] || raw[i] == full[i]
  }

  predicate DataBlock(s: Scheme, data: seq<bytes>) {
    |data| == s.dataShards && |data| > 0 && |data[0]| > 0 && SameLength(data, |data[0]|)
  }

  /** Any dataShards genuine shards determine the rest, fewer are an error. */
  ghost predicate RsContract(lib: Lib, s: Scheme) {
    && s.dataShards > 0 && s.parityShards >= 0
    && (forall data :: DataBlock(s, data) ==>
          |lib.parity(s, data)| == s.parityShards && SameLength(lib.parity(s, data), |data[0]|))
    && (forall data, raw :: DataBlock(s, data) && Erasure(raw, data + lib.parity(s, data)) ==>
          lib.rebuild(s, raw) ==
            if Present(raw) >= s.dataShards then Some(data + lib.parity(s, data)) else None)
  }

  /** What reedsolomon.New and Reconstruct guarantee for every input. */
  ghost predicate RsShape(lib: Lib) {
    && (forall s :: lib.schemeOk(s) ==> s.dataShards > 0 && s.parityShards >= 0)
    && (forall s, raw :: lib.rebuild(s, raw).Some? ==> |lib.rebuild(s, raw).value| == |raw|)
  }

  ghost predicate Contracts(lib: Lib, s: Scheme) {
    && ShaContract(lib) && AesContract(lib) && ZstdContract(lib)
    && lib.schemeOk(s) && RsContract(lib, s) && RsShape(lib)
  }

  // AES-256-GCM blobs carry their nonce in front.
  function Encrypt(lib: Lib, key: bytes, nonce: bytes, plaintext: bytes): bytes {
    nonce + lib.gcmSeal(key, nonce, plaintext)
  }

  function Decrypt(lib: Lib, key: bytes, blob: bytes): Option<bytes> {
    if |blob| < NONCE_SIZE then None
    else lib.gcmOpen(key, blob[..NONCE_SIZE], blob[NONCE_SIZE..])
  }

  function EncryptShard(lib: Lib, fileKey: bytes, index: int, nonce: bytes, plaintext: bytes): bytes {
    Encrypt(lib, lib.shardKey(fileKey, index), nonce, plaintext)
  }

  function DecryptShard(lib: Lib, fileKey: bytes, index: int, blob: bytes): Option<bytes> {
    Decrypt(lib, lib.shardKey(fileKey, index), blob)
  }

  lemma DecryptEncrypt(lib: Lib, fileKey: bytes, index: int, nonce: bytes, plaintext: bytes)
    requires AesContract(lib) && |nonce| == NONCE_SIZE
    ensures DecryptShard(lib, fileKey, index, EncryptShard(lib, fileKey, index, nonce, plaintext)) == Some(plaintext)
  {
    var key := lib.shardKey(fileKey, index);
    var blob := Encrypt(lib, key, nonce, plaintext);
    assert blob[..NONCE_SIZE] == nonce && blob[NONCE_SIZE..] == lib.gcmSeal(key, nonce, plaintext);
  }

  /** A shard's blob is its nonce and what the library seals under the key of that index, and it
      opens as whatever the library opens under that key. */
  lemma BlobIsUnderItsIndex(lib: Lib, fileKey: bytes, index: int, nonce: bytes, plaintext: bytes, blob: bytes)
    requires |nonce| == NONCE_SIZE
    ensures EncryptShard(lib, fileKey, index, nonce, plaintext) == nonce + lib.gcmSeal(lib.shardKey(fileKey, index), nonce, plaintext)
    ensures |blob| >= 12 ==> DecryptShard(lib, fileKey, index, blob) == lib.gcmOpen(lib.shardKey(fileKey, index), blob[..12], blob[12..])
    ensures |blob| < 12 ==> DecryptShard(lib, fileKey, index, blob) == None
  {
  }

  // ---- The contracts can all be met at once -------------------------------

  function Byte(x: int): byte { x % 256 }

  function Add(a: bytes, b: bytes): (c: bytes)
    requires |a| == |b|
    ensures |c| == |a|
  {
    seq(|a|, i requires 0 <= i < |a| => Byte(a[i] as int + b[i] as int))
  }

  function Sub(a: bytes, b: bytes): (c: bytes)
    requires |a| == |b|
    ensures |c| == |a|
  {
    seq(|a|, i requires 0 <= i < |a| => Byte(a[i] as int - b[i] as int))
  }

  function SumParity(s: Scheme, data: seq<bytes>): seq<bytes> {
    if |data| == 2 && |data[0]| == |data[1]| then [Add(data[0], data[1])] else []
  }

  /** Recovers whichever one of a, b, a+b is missing. */
  function SumRebuild(s: Scheme, raw: seq<bytes>): Option<seq<bytes>> {
    if |raw| != 3 || Present(raw) < 2 then None
    else if raw[2] == [] then
      if |raw[0]| == |raw[1]| then Some([raw[0], raw[1], Add(raw[0], raw[1])]) else None
    else if raw[0] == [] then
      if |raw[1]| == |raw[2]| then Some([Sub(raw[2], raw[1]), raw[1], raw[2]]) else None
    else if raw[1] == [] then
      if |raw[0]| == |raw[2]| then Some([raw[0], Sub(raw[2], raw[0]), raw[2]]) else None
    else Some(raw)
  }

  /** The first 32 bytes, filled up with zeros. */
  function Head(x: bytes): (h: bytes)
    ensures |h| == HASH_SIZE
  {
    if |x| >= HASH_SIZE then x[..HASH_SIZE] else x + Zeros(HASH_SIZE - |x|)
  }

  const TOY := Lib(
    Head, (m, h) => m, (k, i) => k, (k, n, p) => p, (k, n, c) => Some(c),
    x => x, x => Some(x), s => s == Scheme(2, 1), SumParity, SumRebuild)

  /** Two data shards and their sum meet the codec contract. */
  lemma SumCodeRecovers(a: bytes, b: bytes, raw: seq<bytes>)
    requires |a| == |b| > 0 && Erasure(raw, [a, b, Add(a, b)])
    ensures SumRebuild(Scheme(2, 1), raw) ==
      if Present(raw) >= 2 then Some([a, b, Add(a, b)]) else None
  {
    assert Sub(Add(a, b), a) == b;
    assert Sub(Add(a, b), b) == a;
    assert raw == [raw[0], raw[1], raw[2]];
    assert Present(raw) == Present([raw[0]]) + Present([raw[1]]) + Present([raw[2]]);
    if Present(raw) >= 2 && raw[0] != [] && raw[1] != [] && raw[2] != [] {
      assert raw == [a, b, Add(a, b)];
    }
  }

  lemma ContractsAreSatisfiable()
    ensures Contracts(TOY, Scheme(2, 1))
  {
    var s := Scheme(2, 1);
    forall data: seq<bytes> | DataBlock(s, data)
      ensures |SumParity(s, data)| == 1 && SameLength(SumParity(s, data), |data[0]|)
    {
      assert |data[1]| == |data[0]|;
    }
    forall data: seq<bytes>, raw: seq<bytes> | DataBlock(s, data) && Erasure(raw, data + SumParity(s, data))
      ensures SumRebuild(s, raw) == if Present(raw) >= 2 then Some(data + SumParity(s, data)) else None
    {
      assert |data[1]| == |data[0]|;
      assert data + SumParity(s, data) == [data[0], data[1], Add(data[0], data[1])];
      SumCodeRecovers(data[0], data[1], raw);
    }
  }
}
