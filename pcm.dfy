/** `decodePCM` of `App.tsx`: raw bytes of signed 16-bit little-endian PCM
    become an audio buffer of normalised samples, one list per channel. */
module Pcm {
  import opened Common

  /** The defaults of `decodePCM`, the only values the game passes. */
  const DefaultSampleRate: int := 24000
  const DefaultChannels: nat := 1

  /** The limits under which the Web Audio API's `createBuffer` succeeds; it
      throws `NotSupportedError` outside them. */
  const MaxChannels: nat := 32
  const MinSampleRate: int := 3000
  const MaxSampleRate: int := 768000

  predicate CanCreateBuffer(numChannels: nat, length: nat, sampleRate: int)
  {
    1 <= numChannels <= MaxChannels && length >= 1 && MinSampleRate <= sampleRate <= MaxSampleRate
  }

  /** An `Int16Array` element read from two little-endian bytes. */
  function Int16LE(lo: byte, hi: byte): (v: int)
    ensures -32768 <= v <= 32767
  {
    var u := lo + 256 * hi;
    if u >= 32768 then u - 65536 else u
  }

  /** The two little-endian bytes that store a 16-bit value. */
  function Int16Bytes(v: int): (b: (byte, byte))
    requires -32768 <= v <= 32767
  {
    var u := if v < 0 then v + 65536 else v;
    (u % 256, u / 256)
  }

  lemma Int16BytesRoundTrip(v: int)
    requires -32768 <= v <= 32767
    ensures Int16LE(Int16Bytes(v).0, Int16Bytes(v).1) == v
  {
  }

  lemma Int16LERoundTrip(lo: byte, hi: byte)
    ensures Int16Bytes(Int16LE(lo, hi)) == (lo, hi)
  {
  }

  /** `sample / 32768.0`. */
  function Normalize(v: int): real
  {
    v as real / 32768.0
  }

  /** The `Int16Array` view of the bytes: one value per whole pair. */
  function Samples(data: seq<byte>): (s: seq<int>)
    ensures |s| == |data| / 2
  {
    seq(|data| / 2, k requires 0 <= k < |data| / 2 => Int16LE(data[2 * k], data[2 * k + 1]))
  }

  /** The result of `createBuffer` once filled: the sample rate, the number of
      frames, and one list of samples per channel. */
  datatype AudioBuffer = AudioBuffer(sampleRate: int, length: nat, channels: seq<seq<real>>)

  /** `audioBuffer.duration` in seconds. */
  function Duration(b: AudioBuffer): (d: real)
    requires b.sampleRate > 0
    ensures d >= 0.0
  {
    b.length as real / b.sampleRate as real
  }

  lemma FrameIndex(i: nat, c: nat, numChannels: nat, frames: nat, count: nat)
    requires i < frames && c < numChannels && frames == count / numChannels
    ensures i * numChannels + c < count
  {
    MulMonotone(i + 1, frames, numChannels);
    assert (i + 1) * numChannels == i * numChannels + numChannels;
    assert frames * numChannels <= count;
  }

  lemma MulMonotone(a: nat, b: nat, n: nat)
    requires a <= b
    ensures a * n <= b * n
  {
  }

  /** Channel `c` of the buffer: frame `i` is interleaved sample `i * n + c`. */
  function Channel(samples: seq<int>, numChannels: nat, frames: nat, c: nat): (ch: seq<real>)
    requires c < numChannels && frames == |samples| / numChannels
    ensures |ch| == frames
  {
    seq(frames, i requires 0 <= i < frames =>
      FrameIndex(i, c, numChannels, frames, |samples|);
      Normalize(samples[i * numChannels + c]))
  }

  /** What `decodePCM(data, ctx, sampleRate, numChannels)` resolves to: an odd
      trailing byte is dropped; no bytes left, or a buffer `createBuffer`
      refuses (no channel, no whole frame, a rate out of range), gives `null`. */
  function DecodedPcm(data: seq<byte>, sampleRate: int, numChannels: nat): (r: Option<AudioBuffer>)
    ensures r.Some? ==> r.value.sampleRate == sampleRate && r.value.length >= 1
    ensures r.Some? ==> |r.value.channels| == numChannels
  {
    var samples := Samples(data);
    if |data| / 2 == 0 || numChannels == 0 then None
    else
      var frames := |samples| / numChannels;
      if !CanCreateBuffer(numChannels, frames, sampleRate) then None
      else Some(AudioBuffer(sampleRate, frames,
        seq(numChannels, c requires 0 <= c < numChannels => Channel(samples, numChannels, frames, c))))
  }

  /** `decodePCM`, filling each channel in a loop as the source does. */
  method DecodePCM(data: seq<byte>, sampleRate: int, numChannels: nat) returns (r: Option<AudioBuffer>)
    ensures r == DecodedPcm(data, sampleRate, numChannels)
  {
    var safeData := data;
    if |data| % 2 != 0 {
      safeData := data[..|data| - 1];
    }
    if |safeData| == 0 {
      return None;
    }
    SamplesOfTrimmed(data);
    var dataInt16 := Samples(safeData);
    if numChannels == 0 {
      // the frame count is infinite and `createBuffer` throws
      return None;
    }
    var frameCount := |dataInt16| / numChannels;
    if !CanCreateBuffer(numChannels, frameCount, sampleRate) {
      return None;
    }
    var channels: seq<seq<real>> := [];
    for channel := 0 to numChannels
      invariant |channels| == channel
      invariant forall c :: 0 <= c < channel ==> channels[c] == Channel(dataInt16, numChannels, frameCount, c)
    {
      var channelData := FillChannel(dataInt16, numChannels, frameCount, channel);
      channels := channels + [channelData];
    }
    assert channels == seq(numChannels, c requires 0 <= c < numChannels => Channel(dataInt16, numChannels, frameCount, c));
    r := Some(AudioBuffer(sampleRate, frameCount, channels));
  }

  /** The inner loop of `decodePCM`: `getChannelData(channel)` filled frame
      by frame. */
  method FillChannel(dataInt16: seq<int>, numChannels: nat, frameCount: nat, channel: nat) returns (ch: seq<real>)
    requires channel < numChannels && frameCount == |dataInt16| / numChannels
    ensures ch == Channel(dataInt16, numChannels, frameCount, channel)
  {
    var channelData := new real[frameCount];
    for i := 0 to frameCount
      invariant forall k :: 0 <= k < i ==> channelData[k] == Channel(dataInt16, numChannels, frameCount, channel)[k]
    {
      FrameIndex(i, channel, numChannels, frameCount, |dataInt16|);
      channelData[i] := Normalize(dataInt16[i * numChannels + channel]);
    }
    ch := channelData[..];
  }

  /** Dropping an odd trailing byte does not change the 16-bit view. */
  lemma SamplesOfTrimmed(data: seq<byte>)
    ensures |data| % 2 != 0 ==> Samples(data[..|data| - 1]) == Samples(data)
  {
    if |data| % 2 != 0 {
      var t := data[..|data| - 1];
      assert |t| / 2 == |data| / 2;
      forall k | 0 <= k < |t| / 2 ensures Samples(t)[k] == Samples(data)[k] {
        assert t[2 * k] == data[2 * k] && t[2 * k + 1] == data[2 * k + 1];
      }
    }
  }

  /** An odd-length input decodes exactly as the input minus its last byte. */
  lemma OddLengthTrimmed(data: seq<byte>, sampleRate: int, numChannels: nat)
    requires |data| % 2 == 1
    ensures DecodedPcm(data, sampleRate, numChannels) == DecodedPcm(data[..|data| - 1], sampleRate, numChannels)
  {
    SamplesOfTrimmed(data);
  }

  /** Zero or one byte gives `null`, never an empty buffer. */
  lemma TooShortIsNull(data: seq<byte>, sampleRate: int, numChannels: nat)
    requires |data| <= 1
    ensures DecodedPcm(data, sampleRate, numChannels) == None
  {
  }

  /** The layout of a decoded buffer: `(len / 2) / numChannels` frames, and
      sample `i` of channel `c` read from bytes `2 (i n + c)` and `2 (i n + c) + 1`. */
  lemma Layout(data: seq<byte>, sampleRate: int, numChannels: nat, c: nat, i: nat)
    requires DecodedPcm(data, sampleRate, numChannels).Some?
    requires c < numChannels && i < DecodedPcm(data, sampleRate, numChannels).value.length
    ensures var b := DecodedPcm(data, sampleRate, numChannels).value;
      b.length == (|data| / 2) / numChannels && |b.channels| == numChannels &&
      |b.channels[c]| == b.length &&
      2 * (i * numChannels + c) + 1 < |data| &&
      b.channels[c][i] == Normalize(Int16LE(data[2 * (i * numChannels + c)], data[2 * (i * numChannels + c) + 1]))
  {
    var frames := (|data| / 2) / numChannels;
    FrameIndex(i, c, numChannels, frames, |data| / 2);
  }

  /** Every normalised sample lies in [-1, 32767/32768]. */
  lemma NormalizeBounds(v: int)
    requires -32768 <= v <= 32767
    ensures -1.0 <= Normalize(v) <= 32767.0 / 32768.0
  {
  }

  lemma SampleBounds(data: seq<byte>, sampleRate: int, numChannels: nat, c: nat, i: nat)
    requires DecodedPcm(data, sampleRate, numChannels).Some?
    requires c < numChannels && i < DecodedPcm(data, sampleRate, numChannels).value.length
    ensures var b := DecodedPcm(data, sampleRate, numChannels).value;
      -1.0 <= b.channels[c][i] <= 32767.0 / 32768.0
  {
    Layout(data, sampleRate, numChannels, c, i);
    var k := i * numChannels + c;
    NormalizeBounds(Int16LE(data[2 * k], data[2 * k + 1]));
  }

  /** With the defaults, any two or more bytes give a mono buffer of
      `len / 2` frames at 24 kHz, lasting `(len / 2) / 24000` seconds. */
  lemma DefaultDecode(data: seq<byte>)
    requires |data| >= 2
    ensures var r := DecodedPcm(data, DefaultSampleRate, DefaultChannels);
      r.Some? && r.value.length == |data| / 2 && |r.value.channels| == 1 &&
      Duration(r.value) == (|data| / 2) as real / 24000.0
  {
  }
}
