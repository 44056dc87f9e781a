/**
 * zlib as the Go sources use it: a compressor and a decompressor treated as
 * an abstract pair. The only property relied upon is that decompressing a
 * compressed text gives the text back; decompression of other bytes may fail.
 */
module Zlib {
  import opened Wrappers

  /** A compression scheme; `decompress` answers None for a malformed stream. */
  datatype Codec = Codec(compress: string -> seq<byte>, decompress: seq<byte> -> Option<string>)

  ghost predicate Lossless(c: Codec) {
    forall x :: c.decompress(c.compress(x)) == Some(x)
  }

  /**
   * A witness codec, not zlib: text as three bytes per character (its code
   * point, high byte first), with no header and no block framing.
   */
  function WitnessCompress(s: string): (b: seq<byte>)
    ensures |b| == 3 * |s|
  {
    if s == [] then []
    else
      var v := s[0] as int;
      [v / 65536, (v / 256) % 256, v % 256] + WitnessCompress(s[1..])
  }

  predicate IsCodePoint(v: int) {
    (0 <= v < 0xD800) || (0xE000 <= v < 0x11_0000)
  }

  function WitnessDecompress(b: seq<byte>): Option<string>
    decreases |b|
  {
    if b == [] then Some([])
    else if |b| < 3 then None
    else
      var v := b[0] as int * 65536 + b[1] as int * 256 + b[2] as int;
      if !IsCodePoint(v) then None
      else match WitnessDecompress(b[3..])
        case None => None
        case Some(rest) => Some([v as char] + rest)
  }

  /** The witness codec, showing that lossless codecs exist. */
  function Witness(): Codec {
    Codec(WitnessCompress, WitnessDecompress)
  }

  lemma {:induction false} WitnessRoundTrip(s: string)
    ensures WitnessDecompress(WitnessCompress(s)) == Some(s)
  {
    if s != [] {
      var v := s[0] as int;
      var b := WitnessCompress(s);
      assert b[3..] == WitnessCompress(s[1..]);
      assert b[0] as int * 65536 + b[1] as int * 256 + b[2] as int == v;
      WitnessRoundTrip(s[1..]);
      assert [s[0]] + s[1..] == s;
    }
  }

  lemma WitnessIsLossless()
    ensures Lossless(Witness())
  {
    forall x ensures Witness().decompress(Witness().compress(x)) == Some(x) {
      WitnessRoundTrip(x);
    }
  }
}
