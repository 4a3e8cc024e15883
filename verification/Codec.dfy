/** internal/codec: padding and splitting a buffer into Reed-Solomon shards, and back. */
module Codec {
  import opened Base
  import opened Foreign

  function Padding(s: Scheme, size: nat): nat
    requires s.dataShards > 0
  {
    var rem := size % s.dataShards;
    if rem == 0 then 0 else s.dataShards - rem
  }

  lemma PaddedSize(s: Scheme, size: nat)
    requires s.dataShards > 0
    ensures var n := size + Padding(s, size);
      n % s.dataShards == 0 && n == s.dataShards * (n / s.dataShards)
    ensures 0 <= Padding(s, size) < s.dataShards
  {
    var k, q, rem := s.dataShards, size / s.dataShards, size % s.dataShards;
    if rem == 0 {
      ModIsUnique(size, k, q, 0);
    } else {
      assert size + Padding(s, size) == k * (q + 1);
      ModIsUnique(size + Padding(s, size), k, q + 1, 0);
    }
  }

  /** `n` consecutive slices of `size` bytes. */
  function Slices(buf: bytes, n: nat, size: nat): (data: seq<bytes>)
    requires |buf| == n * size
    ensures |data| == n && SameLength(data, size)
  {
    if n == 0 then []
    else
      SliceBound(n - 1, size);
      [buf[..size]] + Slices(buf[size..], n - 1, size)
  }

  lemma SliceBound(n: nat, size: nat)
    ensures (n + 1) * size == n * size + size && n * size >= 0
  {
  }

  lemma {:induction false} SlicesConcat(buf: bytes, n: nat, size: nat)
    requires |buf| == n * size
    ensures Concat(Slices(buf, n, size)) == buf
  {
    if n > 0 {
      SliceBound(n - 1, size);
      SlicesConcat(buf[size..], n - 1, size);
      assert Slices(buf, n, size)[1..] == Slices(buf[size..], n - 1, size);
    }
  }

  /** Slice i sits at i*size. */
  lemma {:induction false} SliceAt(buf: bytes, n: nat, size: nat, i: nat)
    requires |buf| == n * size && i < n
    ensures 0 <= i * size <= (i + 1) * size <= |buf|
    ensures Slices(buf, n, size)[i] == buf[i * size..(i + 1) * size]
  {
    SliceBound(n - 1, size);
    SliceBound(i, size);
    if i > 0 {
      SliceBound(i - 1, size);
      SliceAt(buf[size..], n - 1, size, i - 1);
      assert buf[size..][(i - 1) * size..i * size] == buf[i * size..(i + 1) * size];
    } else {
      assert buf[0 * size..1 * size] == buf[..size];
    }
  }

  /** The data shards of a buffer: padded to a multiple of dataShards, then sliced. */
  function DataShards(s: Scheme, chunk: bytes): (data: seq<bytes>)
    requires s.dataShards > 0
    ensures |data| == s.dataShards
  {
    PaddedSize(s, |chunk|);
    var padded := chunk + Zeros(Padding(s, |chunk|));
    Slices(padded, s.dataShards, |padded| / s.dataShards)
  }

  /** All shards of a buffer; zero-length shards are refused by the codec. */
  function Split(lib: Lib, s: Scheme, chunk: bytes): Result<seq<bytes>>
    requires s.dataShards > 0
  {
    var data := DataShards(s, chunk);
    if data[0] == [] then Err("no shard data") else Ok(data + lib.parity(s, data))
  }

  function Merge(lib: Lib, s: Scheme, shards: seq<bytes>): Result<bytes>
    requires RsShapeAt(lib, s, shards)
  {
    match lib.rebuild(s, shards)
    case None => Err("too few shards")
    case Some(full) => Ok(Concat(full[..s.dataShards]))
  }

  predicate RsShapeAt(lib: Lib, s: Scheme, shards: seq<bytes>) {
    && 0 <= s.dataShards <= |shards|
    && (lib.rebuild(s, shards).Some? ==> |lib.rebuild(s, shards).value| == |shards|)
  }

  lemma SplitIsDataBlock(s: Scheme, chunk: bytes)
    requires s.dataShards > 0 && chunk != []
    ensures DataBlock(s, DataShards(s, chunk))
    ensures Concat(DataShards(s, chunk)) == chunk + Zeros(Padding(s, |chunk|))
  {
    PaddedSize(s, |chunk|);
    var padded := chunk + Zeros(Padding(s, |chunk|));
    SlicesConcat(padded, s.dataShards, |padded| / s.dataShards);
    var size := |padded| / s.dataShards;
    assert |padded| == s.dataShards * size;
    assert |DataShards(s, chunk)[0]| == size;
  }

  /** Merging what is left of a split buffer: the buffer and its padding if enough
      shards are left, an error if not. */
  lemma MergeSplit(lib: Lib, s: Scheme, chunk: bytes, raw: seq<bytes>)
    requires RsContract(lib, s) && chunk != []
    requires Split(lib, s, chunk).Ok? ==> Erasure(raw, Split(lib, s, chunk).value)
    ensures Split(lib, s, chunk).Ok? && |Split(lib, s, chunk).value| == s.Total() && RsShapeAt(lib, s, raw)
    ensures Present(raw) >= s.dataShards ==>
      Merge(lib, s, raw) == Ok(chunk + Zeros(Padding(s, |chunk|)))
    ensures Present(raw) < s.dataShards ==> Merge(lib, s, raw).Err?
  {
    SplitIsDataBlock(s, chunk);
    var data := DataShards(s, chunk);
    assert |data[0]| > 0;
    var full := data + lib.parity(s, data);
    assert full[..s.dataShards] == data;
  }

  /** SplitChunkToShards and Encode: slice the padded buffer, then fill in parity. */
  method SplitChunkToShards(lib: Lib, s: Scheme, chunk: bytes) returns (r: Result<seq<bytes>>)
    requires s.dataShards > 0
    ensures r == Split(lib, s, chunk)
  {
    var padded := chunk;
    var rem := |chunk| % s.dataShards;
    if rem != 0 {
      padded := chunk + Zeros(s.dataShards - rem);
    }
    PaddedSize(s, |chunk|);
    assert padded == chunk + Zeros(Padding(s, |chunk|));
    var shardSize := |padded| / s.dataShards;
    var data := SliceBuffer(padded, s.dataShards, shardSize);
    assert data == DataShards(s, chunk);
    if data[0] == [] {
      r := Err("no shard data");
    } else {
      r := Ok(data + lib.parity(s, data));
    }
  }

  /** The loop that cuts the padded buffer. */
  method SliceBuffer(padded: bytes, n: nat, shardSize: nat) returns (data: seq<bytes>)
    requires |padded| == n * shardSize
    ensures data == Slices(padded, n, shardSize)
  {
    hide Slices;
    data := [];
    for i := 0 to n
      invariant |data| == i
      invariant forall j :: 0 <= j < i ==> data[j] == Slices(padded, n, shardSize)[j]
    {
      SliceAt(padded, n, shardSize, i);
      data := data + [padded[i * shardSize..(i + 1) * shardSize]];
    }
  }

  /** MergeShardToChunk: rebuild what is missing, then append the data shards. */
  method MergeShardToChunk(lib: Lib, s: Scheme, shards: seq<bytes>) returns (r: Result<bytes>)
    requires RsShapeAt(lib, s, shards)
    ensures r == Merge(lib, s, shards)
  {
    var rebuilt := lib.rebuild(s, shards);
    if rebuilt.None? {
      return Err("too few shards");
    }
    var full, out := rebuilt.value, [];
    for i := 0 to s.dataShards
      invariant out == Concat(full[..i])
    {
      assert full[..i + 1] == full[..i] + [full[i]];
      ConcatSnoc(full[..i], full[i]);
      out := out + full[i];
    }
    r := Ok(out);
  }
}
