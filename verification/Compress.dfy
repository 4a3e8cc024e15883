/** internal/compress: a zstd frame behind a 4-byte little-endian length. */
module Compress {
  import opened Base
  import opened Foreign

  function Compress(lib: Lib, src: bytes): bytes {
    var frame := lib.zstd(src);
    Le(|frame| % MAX_FRAME, 4) + frame
  }

  function Decompress(lib: Lib, src: bytes): Result<bytes> {
    if |src| < 4 then Err("buffer too short")
    else
      var frameLen := FromLe(src[..4]);
      if 4 + frameLen > |src| then Err("header claims too many bytes")
      else match lib.unzstd(src[4..4 + frameLen])
        case None => Err("decode")
        case Some(out) => Ok(out)
  }

  /** The header makes trailing padding invisible. */
  lemma SurvivesPadding(lib: Lib, src: bytes, padding: bytes)
    requires ZstdContract(lib) && |lib.zstd(src)| < MAX_FRAME
    ensures Decompress(lib, Compress(lib, src) + padding) == Ok(src)
  {
    var frame := lib.zstd(src);
    var header := Le(|frame|, 4);
    assert |frame| % MAX_FRAME == |frame|;
    var buf := header + frame + padding;
    assert Compress(lib, src) + padding == buf;
    FourBytes();
    LeRoundTrip(|frame|, 4);
    Sliced(header, frame, padding);
    assert FromLe(buf[..4]) == |frame|;
  }

  lemma Sliced(header: bytes, frame: bytes, padding: bytes)
    requires |header| == 4
    ensures var buf := header + frame + padding; buf[..4] == header && buf[4..4 + |frame|] == frame
  {
  }

  /** The number in a little-endian header. */
  function Header(src: bytes): int
    requires |src| >= 4
  {
    src[0] as int + 0x100 * src[1] as int + 0x1_0000 * src[2] as int + 0x100_0000 * src[3] as int
  }

  lemma FromLeIsHeader(src: bytes)
    requires |src| >= 4
    ensures FromLe(src[..4]) == Header(src)
  {
    var h := src[..4];
    assert h[1..][0] == src[1] && h[1..][1..][0] == src[2] && h[1..][1..][1..][0] == src[3];
    assert h[1..][1..][1..][1..] == [];
    assert FromLe(h[1..][1..][1..]) == src[3] as int;
    assert FromLe(h[1..][1..]) == src[2] as int + 0x100 * src[3] as int;
    assert FromLe(h[1..]) == src[1] as int + 0x100 * (src[2] as int + 0x100 * src[3] as int);
  }

  /** A buffer decompresses if and only if it has a header, at least the bytes the header
      claims, and those bytes decode; then it gives what they decode to. */
  lemma DecompressIff(lib: Lib, src: bytes)
    ensures Decompress(lib, src).Ok? <==>
      |src| >= 4 && 4 + Header(src) <= |src| && lib.unzstd(src[4..4 + Header(src)]).Some?
    ensures Decompress(lib, src).Ok? ==> Some(Decompress(lib, src).value) == lib.unzstd(src[4..4 + Header(src)])
  {
    if |src| >= 4 {
      FromLeIsHeader(src);
    }
  }

  /** Compressing writes the length of the frame in the header and the frame after it. */
  lemma CompressLayout(lib: Lib, src: bytes)
    requires |lib.zstd(src)| < 0x1_0000_0000
    ensures var out := Compress(lib, src);
      |out| == 4 + |lib.zstd(src)| && Header(out) == |lib.zstd(src)| && out[4..] == lib.zstd(src)
  {
    var n := |lib.zstd(src)|;
    FourBytes();
    LeRoundTrip(n, 4);
    assert Compress(lib, src)[..4] == Le(n, 4);
    FromLeIsHeader(Compress(lib, src));
  }
}
