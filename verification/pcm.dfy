/** Mono 16-bit little-endian PCM held in byte arrays (`QByteArray`), read
    and written one `int16_t` sample at a time. */
module Pcm {
  import CInt

  type Byte = b: int | 0 <= b < 256

  /** Number of whole samples in a buffer (`size / sizeof(int16_t)`). */
  function SampleCount(buf: seq<Byte>): nat
  {
    |buf| / 2
  }

  /** The `int16_t` stored little-endian at bytes 2j and 2j+1. */
  function SampleAt(buf: seq<Byte>, j: nat): (v: int)
    requires 2 * j + 1 < |buf|
    ensures CInt.IsInt16(v)
  {
    var u: int := buf[2 * j] as int + 256 * (buf[2 * j + 1] as int);
    if u >= 32768 then u - 65536 else u
  }

  /** The two little-endian bytes of an `int16_t`. */
  function EncodeSample(v: int): (bs: seq<Byte>)
    requires CInt.IsInt16(v)
    ensures |bs| == 2
  {
    var u := v % 65536;
    [u % 256, u / 256]
  }

  /** Writing a sample and reading it back gives the sample. */
  lemma DecodeEncode(v: int)
    requires CInt.IsInt16(v)
    ensures SampleAt(EncodeSample(v), 0) == v
  {
  }

  /** Reading two bytes as a sample and writing it back gives the two bytes. */
  lemma EncodeDecode(buf: seq<Byte>, j: nat)
    requires 2 * j + 1 < |buf|
    ensures EncodeSample(SampleAt(buf, j)) == buf[2 * j..2 * j + 2]
  {
  }

  /** A whole sample array written out little-endian. */
  function Encode(samples: seq<int>): (bs: seq<Byte>)
    requires forall j :: 0 <= j < |samples| ==> CInt.IsInt16(samples[j])
    ensures |bs| == 2 * |samples|
    ensures forall j :: 0 <= j < |samples| ==> SampleAt(bs, j) == samples[j]
    decreases |samples|
  {
    if |samples| == 0 then []
    else
      var rest := Encode(samples[1..]);
      var bs := EncodeSample(samples[0]) + rest;
      DecodeEncode(samples[0]);
      forall j | 1 <= j < |samples|
        ensures SampleAt(bs, j) == samples[j]
      {
        SampleAfterPair(EncodeSample(samples[0]), rest, j - 1);
      }
      bs
  }

  /** Behind a two-byte prefix, sample j + 1 is sample j of the rest. */
  lemma SampleAfterPair(pair: seq<Byte>, rest: seq<Byte>, j: nat)
    requires |pair| == 2 && 2 * j + 1 < |rest|
    ensures SampleAt(pair + rest, j + 1) == SampleAt(rest, j)
  {
    assert (pair + rest)[2 * j + 2] == rest[2 * j];
    assert (pair + rest)[2 * j + 3] == rest[2 * j + 1];
  }

  /** The samples of a buffer, ignoring a trailing odd byte. */
  function Decode(buf: seq<Byte>): (samples: seq<int>)
    ensures |samples| == SampleCount(buf)
    ensures forall j :: 0 <= j < |samples| ==> samples[j] == SampleAt(buf, j)
  {
    seq(SampleCount(buf), j requires 0 <= j < SampleCount(buf) => SampleAt(buf, j))
  }

  /** Encoding the decoded samples of an even-length buffer reproduces it. */
  lemma {:induction false} EncodeDecodeAll(buf: seq<Byte>)
    requires |buf| % 2 == 0
    ensures Encode(Decode(buf)) == buf
    decreases |buf|
  {
    if |buf| > 0 {
      var rest := buf[2..];
      EncodeDecodeAll(rest);
      assert Decode(buf)[1..] == Decode(rest);
      EncodeDecode(buf, 0);
      assert buf == buf[0..2] + rest;
    }
  }

  /** An even-length buffer is determined by its samples. */
  lemma SamplesDetermine(a: seq<Byte>, b: seq<Byte>)
    requires |a| == |b| && |a| % 2 == 0
    requires forall j :: 0 <= j < |a| / 2 ==> SampleAt(a, j) == SampleAt(b, j)
    ensures a == b
  {
    assert Decode(a) == Decode(b);
    EncodeDecodeAll(a);
    EncodeDecodeAll(b);
  }
}
