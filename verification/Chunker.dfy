/** internal/chunker: fixed-size chunks, zero padded, each with the hash of its real bytes. */
module Chunker {
  import opened Base
  import opened Foreign

  datatype Chunk = Chunk(index: nat, data: bytes, hash: bytes, size: nat)

  /** The real bytes of each chunk of `content`. */
  function Pieces(content: bytes, chunkSize: nat): (pieces: seq<bytes>)
    requires chunkSize > 0
    decreases |content|
  {
    if |content| == 0 then []
    else if |content| <= chunkSize then [content]
    else [content[..chunkSize]] + Pieces(content[chunkSize..], chunkSize)
  }

  lemma PiecesUnfold(content: bytes, chunkSize: nat)
    requires 0 < chunkSize < |content|
    ensures Pieces(content, chunkSize) == [content[..chunkSize]] + Pieces(content[chunkSize..], chunkSize)
    ensures Pieces(content[chunkSize..], chunkSize) != []
  {
  }

  /** Pieces lose nothing, only the last may be short, and none is empty. */
  lemma {:induction false} PiecesPartition(content: bytes, chunkSize: nat)
    requires chunkSize > 0
    ensures var p := Pieces(content, chunkSize);
      && Concat(p) == content
      && (forall i :: 0 <= i < |p| ==> 0 < |p[i]| <= chunkSize)
      && (forall i :: 0 <= i < |p| - 1 ==> |p[i]| == chunkSize)
      && (p != [] ==> |p[|p| - 1]| == LastSize(|content|, chunkSize))
    decreases |content|
  {
    if |content| <= chunkSize {
      FewPieces(content, chunkSize);
    } else {
      hide Pieces, LastSize, Concat;
      var first, rest := content[..chunkSize], content[chunkSize..];
      PiecesPartition(rest, chunkSize);
      LastSizeDrop(|content|, chunkSize);
      PiecesUnfold(content, chunkSize);
      var p, q := Pieces(content, chunkSize), Pieces(rest, chunkSize);
      ConcatCons(first, q);
      assert p[|p| - 1] == q[|q| - 1];
      assert content == first + rest;
    }
  }

  lemma FewPieces(content: bytes, chunkSize: nat)
    requires chunkSize > 0 && |content| <= chunkSize
    ensures Pieces(content, chunkSize) == if content == [] then [] else [content]
    ensures Concat(Pieces(content, chunkSize)) == content
    ensures content != [] ==> |content| == LastSize(|content|, chunkSize)
  {
    if content != [] {
      ConcatCons(content, []);
      assert [content] + [] == [content];
      if |content| == chunkSize {
        ModIsUnique(|content|, chunkSize, 1, 0);
      } else {
        ModIsUnique(|content|, chunkSize, 0, |content|);
      }
    }
  }

  /** The size of the last chunk of a file of `size` bytes. */
  function LastSize(size: nat, chunkSize: nat): nat
    requires chunkSize > 0
  {
    if size % chunkSize == 0 then chunkSize else size % chunkSize
  }

  lemma LastSizeDrop(size: nat, chunkSize: nat)
    requires 0 < chunkSize < size
    ensures LastSize(size - chunkSize, chunkSize) == LastSize(size, chunkSize)
  {
    var q := (size - chunkSize) / chunkSize;
    ModIsUnique(size, chunkSize, q + 1, (size - chunkSize) % chunkSize);
  }

  /** What the padded chunk of one piece looks like. */
  function ChunkOf(lib: Lib, index: nat, piece: bytes, chunkSize: nat): Chunk
    requires |piece| <= chunkSize
  {
    Chunk(index, piece + Zeros(chunkSize - |piece|), lib.sha(piece), |piece|)
  }

  ghost predicate ChunksOf(lib: Lib, chunks: seq<Chunk>, pieces: seq<bytes>, chunkSize: nat) {
    && |chunks| == |pieces|
    && forall i :: 0 <= i < |pieces| ==>
         |pieces[i]| <= chunkSize && chunks[i] == ChunkOf(lib, i, pieces[i], chunkSize)
  }

  /** Reads full buffers until the reader ends, as io.ReadFull does. The reader yields
      `content` and then the end of the file, or an error if it is broken. */
  method ChunkReader(lib: Lib, content: bytes, chunkSize: nat, broken: bool) returns (r: Result<seq<Chunk>>)
    requires chunkSize > 0
    ensures r.Err? <==> broken
    ensures r.Ok? ==> ChunksOf(lib, r.value, Pieces(content, chunkSize), chunkSize)
  {
    hide Pieces;
    NoPieces(chunkSize);
    var chunks: seq<Chunk> := [];
    var pos := 0;
    ghost var done: seq<bytes> := [];
    while true
      invariant pos <= |content|
      invariant ChunksOf(lib, chunks, done, chunkSize)
      invariant done + Pieces(content[pos..], chunkSize) == Pieces(content, chunkSize)
      decreases |content| - pos
    {
      var n := if |content| - pos < chunkSize then |content| - pos else chunkSize;
      var short := n < chunkSize;
      if n > 0 {
        var buf := content[pos..pos + n];
        var data := PaddedCopy(buf, chunkSize);
        assert data[..n] == buf;
        chunks := chunks + [Chunk(|chunks|, data, lib.sha(data[..n]), n)];
        NextPiece(content, pos, n, chunkSize);
        done := done + [buf];
        pos := pos + n;
      }
      if short && broken {
        return Err("chunker: read");
      }
      if short {
        break;
      }
    }
    assert content[pos..] == [];
    r := Ok(chunks);
  }

  lemma NoPieces(chunkSize: nat)
    requires chunkSize > 0
    ensures Pieces([], chunkSize) == []
  {
  }

  lemma NextPiece(content: bytes, pos: nat, n: nat, chunkSize: nat)
    requires 0 < n <= chunkSize && pos + n <= |content| && (n < chunkSize ==> pos + n == |content|)
    ensures Pieces(content[pos..], chunkSize) == [content[pos..pos + n]] + Pieces(content[pos + n..], chunkSize)
  {
    var rest := content[pos..];
    assert rest[..n] == content[pos..pos + n] && rest[n..] == content[pos + n..];
    assert n == |rest| ==> rest[..n] == rest;
  }

  /** A zeroed buffer with the read bytes copied to its start. */
  method PaddedCopy(buf: bytes, chunkSize: nat) returns (padded: bytes)
    requires |buf| <= chunkSize
    ensures padded == buf + Zeros(chunkSize - |buf|)
  {
    var data := new byte[chunkSize](i => 0);
    for i := 0 to |buf|
      invariant data[..i] == buf[..i]
      invariant forall j :: i <= j < chunkSize ==> data[j] == 0
    {
      data[i] := buf[i];
    }
    padded := data[..];
    assert padded == buf + Zeros(chunkSize - |buf|);
  }

  /** Writes the chunks back, trimming the padding of the last one only. */
  method Reassemble(chunks: seq<Chunk>) returns (out: bytes)
    ensures forall lib: Lib, content: bytes, chunkSize: nat ::
      chunkSize > 0 && ChunksOf(lib, chunks, Pieces(content, chunkSize), chunkSize) ==> out == content
  {
    out := [];
    ghost var trimmed: seq<bytes> := [];
    for i := 0 to |chunks|
      invariant |trimmed| == i && out == Concat(trimmed)
      invariant forall j :: 0 <= j < i ==> trimmed[j] == Trim(chunks, j)
    {
      var data := chunks[i].data;
      if i == |chunks| - 1 && 0 < chunks[i].size < |data| {
        data := data[..chunks[i].size];
      }
      ConcatSnoc(trimmed, data);
      trimmed := trimmed + [data];
      out := out + data;
    }
    forall lib: Lib, content: bytes, chunkSize: nat |
      chunkSize > 0 && ChunksOf(lib, chunks, Pieces(content, chunkSize), chunkSize)
      ensures out == content
    {
      PiecesPartition(content, chunkSize);
      var p := Pieces(content, chunkSize);
      assert forall j :: 0 <= j < |p| ==> trimmed[j] == p[j];
      assert trimmed == p;
    }
  }

  ghost function Trim(chunks: seq<Chunk>, i: nat): bytes
    requires i < |chunks|
  {
    var c := chunks[i];
    if i == |chunks| - 1 && 0 < c.size < |c.data| then c.data[..c.size] else c.data
  }

  function VerifyChunk(lib: Lib, c: Chunk): bool {
    var size := if c.size == 0 || c.size > |c.data| then |c.data| else c.size;
    lib.sha(c.data[..size]) == c.hash
  }

  lemma FreshChunksVerify(lib: Lib, content: bytes, chunkSize: nat, chunks: seq<Chunk>)
    requires chunkSize > 0 && ChunksOf(lib, chunks, Pieces(content, chunkSize), chunkSize)
    ensures forall i :: 0 <= i < |chunks| ==> VerifyChunk(lib, chunks[i])
  {
    PiecesPartition(content, chunkSize);
    var p := Pieces(content, chunkSize);
    forall i | 0 <= i < |chunks| ensures VerifyChunk(lib, chunks[i]) {
      assert chunks[i].data[..chunks[i].size] == p[i];
    }
  }

  /** A chunk that carries the hash and size of some bytes verifies only if it holds them,
      or the two strings have one digest. */
  lemma VerifiedChunkIsGenuine(lib: Lib, c: Chunk, piece: bytes)
    requires c.hash == lib.sha(piece) && 0 < c.size == |piece| <= |c.data| && VerifyChunk(lib, c)
    ensures c.data[..c.size] == piece || Collision(lib, c.data[..c.size], piece)
  {
  }

  /** How many chunks a content has. */
  lemma {:induction false} PieceCount(content: bytes, chunkSize: nat)
    requires chunkSize > 0
    ensures |Pieces(content, chunkSize)| == (|content| + chunkSize - 1) / chunkSize
    decreases |content|
  {
    if |content| == 0 {
      ModIsUnique(chunkSize - 1, chunkSize, 0, chunkSize - 1);
    } else if |content| <= chunkSize {
      ModIsUnique(|content| + chunkSize - 1, chunkSize, 1, |content| - 1);
    } else {
      PieceCount(content[chunkSize..], chunkSize);
      PiecesUnfold(content, chunkSize);
      var n := |content| - 1;
      var q, r := n / chunkSize, n % chunkSize;
      assert n == chunkSize * q + r;
      ModIsUnique(n + chunkSize, chunkSize, q + 1, r);
    }
  }

  /** Backups cut at every 4 MiB. */
  lemma FourMebibyteChunks(content: bytes)
    ensures |Pieces(content, DEFAULT_CHUNK_SIZE)| == (|content| + 4_194_303) / 4_194_304
  {
    PieceCount(content, DEFAULT_CHUNK_SIZE);
  }
}
