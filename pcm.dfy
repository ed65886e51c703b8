/**
 * 16-bit PCM samples: the quantisation `int(max(-1.0, min(1.0, x)) * 32767.0)` and
 * the little-endian two's-complement packing `struct.pack('<h', s)` of
 * `synthesize_pcm16`, with the decoder that inverts the packing.
 */
module Pcm16 {

  newtype byte = x: int | 0 <= x < 256

  /** The values `struct.pack('<h', ...)` accepts: a signed 16-bit integer. */
  type Sample = s: int | -32768 <= s <= 32767

  /** The full-scale amplitude a unit sample is scaled by. */
  const FullScale: int := 32767

  /** Python's `int(x)` on a float: truncation toward zero. */
  function Truncate(x: real): (i: int)
    ensures x >= 0.0 ==> 0 <= i && i as real <= x < i as real + 1.0
    ensures x < 0.0 ==> i <= 0 && i as real - 1.0 < x <= i as real
  {
    if x >= 0.0 then x.Floor else -((-x).Floor)
  }

  /** `max(-1.0, min(1.0, x))`. */
  function ClampUnit(x: real): (c: real)
    ensures -1.0 <= c <= 1.0
    ensures -1.0 <= x <= 1.0 ==> c == x
    ensures x > 1.0 ==> c == 1.0
    ensures x < -1.0 ==> c == -1.0
  {
    if 1.0 < x then 1.0 else if x < -1.0 then -1.0 else x
  }

  /**
   * The quantised sample of an amplitude `x`: whatever `x` is, the result lies in
   * [-32767, 32767]; it saturates outside [-1, 1], keeps the sign of `x`, and inside
   * [-1, 1] it is `x * 32767` truncated toward zero.
   */
  function Quantise(x: real): (s: Sample)
    ensures -FullScale <= s <= FullScale
    ensures x >= 1.0 ==> s == FullScale
    ensures x <= -1.0 ==> s == -FullScale
    ensures (s > 0 ==> x > 0.0) && (s < 0 ==> x < 0.0)
    ensures -1.0 <= x <= 1.0 && x >= 0.0 ==> s as real <= x * 32767.0 < s as real + 1.0
    ensures -1.0 <= x <= 1.0 && x < 0.0 ==> s as real - 1.0 < x * 32767.0 <= s as real
  {
    var y := ClampUnit(x) * 32767.0;
    assert -32767.0 <= y <= 32767.0;
    Truncate(y)
  }

  /** The unsigned 16-bit pattern of `s` in two's complement. */
  function TwosComplement(s: Sample): (u: nat)
    ensures u < 65536
    ensures u % 65536 == s % 65536
  {
    if s < 0 then s + 65536 else s
  }

  /**
   * `struct.pack('<h', s)`: two bytes, low byte first. The low byte is `s mod 256` and the
   * high byte `(s div 256) mod 256` (floor division), which is two's complement.
   */
  function EncodeLE16(s: Sample): (b: seq<byte>)
    ensures |b| == 2
    ensures b[0] as int == s % 256
    ensures b[1] as int == (s / 256) % 256
  {
    var u := TwosComplement(s);
    LowHigh(s, u);
    [(u % 256) as byte, (u / 256) as byte]
  }

  lemma LowHigh(s: Sample, u: nat)
    requires u < 65536 && (u == s || u == s + 65536)
    ensures u % 256 == s % 256 && u / 256 == (s / 256) % 256
  {
    if u != s {
      assert u / 256 == s / 256 + 256;
    }
  }

  /** `struct.unpack('<h', bytes([lo, hi]))[0]`. */
  function DecodeLE16(lo: byte, hi: byte): Sample {
    var u := lo as int + 256 * hi as int;
    if u >= 32768 then u - 65536 else u
  }

  /** Decoding the two packed bytes gives back the sample. */
  lemma DecodeEncode(s: Sample)
    ensures DecodeLE16(EncodeLE16(s)[0], EncodeLE16(s)[1]) == s
  {
    var u := TwosComplement(s);
    assert (u % 256) + 256 * (u / 256) == u;
  }

  /** Packing a decoded pair of bytes gives back those bytes: the encoding is a bijection. */
  lemma EncodeDecode(lo: byte, hi: byte)
    ensures EncodeLE16(DecodeLE16(lo, hi)) == [lo, hi]
  {
    var u := lo as int + 256 * hi as int;
    assert TwosComplement(DecodeLE16(lo, hi)) == u;
    assert u % 256 == lo as int && u / 256 == hi as int;
  }

  /** The zero sample is packed as `b'\x00\x00'`. */
  lemma EncodeZero()
    ensures EncodeLE16(0) == [0, 0]
  {
  }

  /** The bytes of a run of samples, each packed in turn and concatenated. */
  function Pack(samples: seq<Sample>): (b: seq<byte>)
    ensures |b| == 2 * |samples|
  {
    if samples == [] then []
    else Pack(samples[..|samples| - 1]) + EncodeLE16(samples[|samples| - 1])
  }

  /** The samples of a buffer of packed bytes, two bytes per sample. */
  function Unpack(bytes: seq<byte>): (s: seq<Sample>)
    requires |bytes| % 2 == 0
    ensures 2 * |s| == |bytes|
  {
    if bytes == [] then []
    else
      var n := |bytes|;
      Unpack(bytes[..n - 2]) + [DecodeLE16(bytes[n - 2], bytes[n - 1])]
  }

  /** Sample `k` of a buffer occupies bytes `2k` and `2k + 1`. */
  lemma {:induction false} PackAt(samples: seq<Sample>, k: nat)
    requires k < |samples|
    ensures Pack(samples)[2 * k] == EncodeLE16(samples[k])[0]
    ensures Pack(samples)[2 * k + 1] == EncodeLE16(samples[k])[1]
  {
    var init := samples[..|samples| - 1];
    if k < |init| {
      PackAt(init, k);
      assert init[k] == samples[k];
    }
  }

  lemma PackSnoc(a: seq<Sample>, x: Sample)
    ensures Pack(a + [x]) == Pack(a) + EncodeLE16(x)
  {
    assert (a + [x])[..|a|] == a;
  }

  lemma {:induction false} PackAppend(a: seq<Sample>, b: seq<Sample>)
    ensures Pack(a + b) == Pack(a) + Pack(b)
    decreases |b|
  {
    if b == [] {
      assert a + b == a;
    } else {
      var b' := b[..|b| - 1];
      assert (a + b)[..|a + b| - 1] == a + b';
      PackAppend(a, b');
    }
  }

  /** Reading a packed buffer back gives the samples that were packed. */
  lemma {:induction false} UnpackPack(samples: seq<Sample>)
    ensures Unpack(Pack(samples)) == samples
  {
    if samples != [] {
      var init := samples[..|samples| - 1];
      var b := Pack(samples);
      assert b[..|b| - 2] == Pack(init);
      UnpackPack(init);
      DecodeEncode(samples[|samples| - 1]);
    }
  }

  /** `b'\x00\x00' * n`. */
  function ZeroBytes(n: nat): (b: seq<byte>)
    ensures |b| == 2 * n
    ensures forall k :: 0 <= k < |b| ==> b[k] == 0
  {
    seq(2 * n, _ => 0)
  }

  /** `n` zero samples pack to exactly `b'\x00\x00' * n`. */
  lemma {:induction false} PackZeros(n: nat)
    ensures Pack(seq(n, _ => 0)) == ZeroBytes(n)
  {
    if n > 0 {
      var z: seq<Sample> := seq(n, _ => 0);
      assert z[..n - 1] == seq(n - 1, _ => 0);
      PackZeros(n - 1);
      EncodeZero();
    }
  }
}
