/** The audio side of `services/geminiService.ts`: the generator that turns a
    stream of base64 fragments into decoded PCM byte buffers, realigning the
    fragments on multiples of 8 characters, and the non-streaming variant that
    joins all those buffers into one. */
module GeminiService {
  import opened Common
  import opened Base64

  /** 8 base64 characters carry 6 bytes: three whole 16-bit samples. */
  const FrameChars: nat := 8

  /** The text of an optional string, `""` when absent. */
  function TextOf(o: Option<string>): string
  {
    if o.Some? then o.value else ""
  }

  /** What one loop step hands to the decoder, and the remainder it keeps. */
  datatype Split = Split(toDecode: Option<string>, remainder: string)

  /** One pass of the loop body for a chunk whose `inlineData.data` is `data`.
      A missing or empty fragment is skipped (JavaScript truthiness); otherwise
      the longest prefix of `remainder + data` whose length is a multiple of 8 is
      emitted, when non-empty, and the rest becomes the new remainder. */
  function SplitFrames(remainder: string, data: Option<string>): (r: Split)
    ensures r.toDecode.Some? ==> |r.toDecode.value| > 0 && |r.toDecode.value| % FrameChars == 0
    ensures TextOf(data) == "" ==> r == Split(None, remainder)
    ensures TextOf(data) != "" ==> |r.remainder| == (|remainder| + |TextOf(data)|) % FrameChars
    ensures TextOf(r.toDecode) + r.remainder == remainder + TextOf(data)
  {
    if TextOf(data) == "" then Split(None, remainder)
    else
      var combined := remainder + data.value;
      var lengthToDecode := |combined| - |combined| % FrameChars;
      if lengthToDecode > 0 then
        assert combined[..lengthToDecode] + combined[lengthToDecode..] == combined;
        Split(Some(combined[..lengthToDecode]), combined[lengthToDecode..])
      else Split(None, combined)
  }

  /** The concatenation of all fragments, in arrival order. */
  function Payload(chunks: seq<Option<string>>): string
  {
    if chunks == [] then "" else Payload(chunks[..|chunks| - 1]) + TextOf(chunks[|chunks| - 1])
  }

  /** The strings handed to the decoder so far, and the pending remainder. */
  datatype Reassembly = Reassembly(emitted: seq<string>, remainder: string)

  /** The reassembly state after one more chunk. */
  function Advance(state: Reassembly, data: Option<string>): Reassembly
  {
    var step := SplitFrames(state.remainder, data);
    Reassembly(state.emitted + (if step.toDecode.Some? then [step.toDecode.value] else []), step.remainder)
  }

  /** The state of the reassembly loop after the given chunks, from `remainder = ''`. */
  function Run(chunks: seq<Option<string>>): Reassembly
  {
    if chunks == [] then Reassembly([], "") else Advance(Run(chunks[..|chunks| - 1]), chunks[|chunks| - 1])
  }

  lemma RunPrefix(chunks: seq<Option<string>>, i: nat)
    requires i < |chunks|
    ensures Run(chunks[..i + 1]) == Advance(Run(chunks[..i]), chunks[i])
  {
    assert chunks[..i + 1][..i] == chunks[..i];
  }

  /** Every string is non-empty and a multiple of 8 characters long. */
  predicate Aligned(es: seq<string>)
  {
    forall k :: 0 <= k < |es| ==> |es[k]| > 0 && |es[k]| % FrameChars == 0
  }

  lemma EightAligned(x: nat, y: nat)
    requires x % 8 == 0 && y % 8 == 0
    ensures (x + y) % 8 == 0
  {
  }

  lemma {:induction false} FlattenAligned(es: seq<string>)
    requires Aligned(es)
    ensures |Flatten(es)| % FrameChars == 0
  {
    if es != [] {
      FlattenAligned(es[..|es| - 1]);
      EightAligned(|Flatten(es[..|es| - 1])|, |es[|es| - 1]|);
    }
  }

  /** One step of the loop keeps the text: emitted then remainder grows by
      exactly the new fragment. */
  lemma AdvanceKeepsText(state: Reassembly, data: Option<string>)
    ensures Flatten(Advance(state, data).emitted) + Advance(state, data).remainder
      == Flatten(state.emitted) + state.remainder + TextOf(data)
  {
    var step := SplitFrames(state.remainder, data);
    var next := Advance(state, data);
    if step.toDecode.Some? {
      var e := step.toDecode.value;
      assert next.emitted == state.emitted + [e];
      FlattenSnoc(state.emitted, e);
      Regroup(Flatten(state.emitted), e, step.remainder, state.remainder + TextOf(data));
    } else {
      assert next.emitted == state.emitted;
    }
  }

  lemma Regroup(f: string, e: string, r: string, x: string)
    requires e + r == x
    ensures (f + e) + r == f + x
  {
  }

  /** One step of the loop keeps every emitted string aligned and the
      remainder shorter than 8. */
  lemma AdvanceKeepsAlignment(state: Reassembly, data: Option<string>)
    requires Aligned(state.emitted) && |state.remainder| < FrameChars
    ensures Aligned(Advance(state, data).emitted) && |Advance(state, data).remainder| < FrameChars
  {
  }

  /** The reassembler loses and duplicates nothing: what it has emitted,
      followed by its remainder, is every fragment received, in order; every
      emitted string is aligned and the remainder is shorter than 8. */
  lemma {:induction false} RunPreservesPayload(chunks: seq<Option<string>>)
    ensures Flatten(Run(chunks).emitted) + Run(chunks).remainder == Payload(chunks)
    ensures Aligned(Run(chunks).emitted)
    ensures |Run(chunks).remainder| < FrameChars
  {
    if chunks != [] {
      var init := chunks[..|chunks| - 1];
      var last := chunks[|chunks| - 1];
      RunPreservesPayload(init);
      AdvanceKeepsText(Run(init), last);
      AdvanceKeepsAlignment(Run(init), last);
    }
  }

  /** The emitted text is exactly the first `L - L % 8` characters of the
      payload of length `L`, and the remainder its last `L % 8`. */
  lemma RunSplitsAtLastFrame(chunks: seq<Option<string>>)
    ensures var p := Payload(chunks);
      Flatten(Run(chunks).emitted) == p[..|p| - |p| % FrameChars] &&
      Run(chunks).remainder == p[|p| - |p| % FrameChars..]
  {
    var r := Run(chunks);
    var p := Payload(chunks);
    var e := Flatten(r.emitted);
    RunPreservesPayload(chunks);
    assert Aligned(r.emitted) && e + r.remainder == p && |r.remainder| < FrameChars;
    FlattenAligned(r.emitted);
    SplitAtMultiple(|e|, |r.remainder|);
    assert p[..|e|] == e;
    assert p[|e|..] == r.remainder;
  }

  lemma SplitAtMultiple(n: nat, m: nat)
    requires n % 8 == 0 && m < 8
    ensures n == (n + m) - (n + m) % 8
  {
  }

  // ---------------------------------------------------------------------------
  // Decoding

  /** `decodeBase64`: `atob`, then one byte per character of the binary string,
      byte `i` being the code of character `i`.  `None` where `atob` throws. */
  method DecodeBase64(base64: string) returns (r: Option<seq<byte>>)
    ensures r == ForgivingDecode(base64)
  {
    var binaryString := Atob(base64);
    if binaryString.None? {
      return None;
    }
    var s := binaryString.value;
    var len := |s|;
    var bytes := new byte[len];
    for i := 0 to len
      invariant forall k :: 0 <= k < i ==> bytes[k] == s[k] as int
    {
      bytes[i] := s[i] as int;
    }
    assert bytes[..] == ForgivingDecode(base64).value;
    r := Some(bytes[..]);
  }

  /** The outcome of decoding the emitted strings one by one until one fails. */
  datatype Decoded = Decoded(buffers: seq<seq<byte>>, failed: bool)

  /** The decoding state after decoding one more string (nothing once failed). */
  function DecodeNext(prev: Decoded, e: string): Decoded
  {
    if prev.failed then prev
    else match ForgivingDecode(e)
      case None => Decoded(prev.buffers, true)
      case Some(b) => Decoded(prev.buffers + [b], false)
  }

  function DecodeEach(es: seq<string>): Decoded
  {
    if es == [] then Decoded([], false) else DecodeNext(DecodeEach(es[..|es| - 1]), es[|es| - 1])
  }

  lemma DecodeEachSnoc(es: seq<string>, e: string)
    ensures DecodeEach(es + [e]) == DecodeNext(DecodeEach(es), e)
  {
    assert (es + [e])[..|es|] == es;
  }

  /** What the generator yields after its loop: the in-loop buffers, and the
      final remainder decoded once unless the stream already ended in error. */
  function Finish(decoded: Decoded, readError: bool, remainder: string): seq<seq<byte>>
  {
    if decoded.failed || readError || remainder == "" then decoded.buffers
    else match ForgivingDecode(remainder)
      case None => decoded.buffers
      case Some(tail) => decoded.buffers + [tail]
  }

  /** The response of the speech service: either opening the stream failed
      (after `retryOperation` gave up), or some chunks arrived, after which the
      stream ended normally or threw. */
  datatype ResponseStream =
    | ConnectFailed
    | Opened(chunks: seq<Option<string>>, readError: bool)

  /** What `streamDetectiveAudio` yields, in order.  A decode failure inside
      the loop, like a read error, ends the generator and skips the final
      decode; the final remainder is decoded once, and its failure dropped. */
  function AudioChunks(stream: ResponseStream): seq<seq<byte>>
  {
    match stream
    case ConnectFailed => []
    case Opened(chunks, readError) =>
      var run := Run(chunks);
      Finish(DecodeEach(run.emitted), readError, run.remainder)
  }

  /** `streamDetectiveAudio`, with the generator's yields collected in order. */
  method StreamDetectiveAudio(stream: ResponseStream) returns (yielded: seq<seq<byte>>)
    ensures yielded == AudioChunks(stream)
  {
    if stream.ConnectFailed? {
      return [];
    }
    var remainder, failed;
    yielded, remainder, failed := ReassembleAndDecode(stream.chunks);
    if !failed && !stream.readError && |remainder| > 0 {
      var tail := DecodeBase64(remainder);
      if tail.Some? {
        yielded := yielded + [tail.value];
      }
    }
  }

  /** The loop of `streamDetectiveAudio`: the buffers yielded while the chunks
      are read, whether a decode threw (which ends the loop), and the
      remainder left for the final decode. */
  method ReassembleAndDecode(chunks: seq<Option<string>>) returns (yielded: seq<seq<byte>>, remainder: string, failed: bool)
    ensures DecodeEach(Run(chunks).emitted) == Decoded(yielded, failed)
    ensures !failed ==> remainder == Run(chunks).remainder
  {
    remainder := "";
    yielded := [];
    failed := false;
    var i := 0;
    while i < |chunks|
      invariant 0 <= i <= |chunks|
      invariant Run(chunks[..i]).remainder == remainder
      invariant DecodeEach(Run(chunks[..i]).emitted) == Decoded(yielded, false)
    {
      var step := SplitFrames(remainder, chunks[i]);
      remainder := step.remainder;
      RunStep(chunks, i, step.toDecode, remainder);
      yielded, failed := DecodeSlice(yielded, step.toDecode);
      if failed {
        // the exception leaves the loop through the outer catch
        AfterFailureNothingMore(chunks, i + 1);
        return;
      }
      i := i + 1;
    }
    assert chunks[..|chunks|] == chunks;
  }

  /** The decoding state once a loop step has handed over `toDecode`, if anything. */
  function Absorb(prev: Decoded, toDecode: Option<string>): Decoded
  {
    if toDecode.Some? then DecodeNext(prev, toDecode.value) else prev
  }

  /** One loop step in terms of the state after all chunks so far. */
  lemma RunStep(chunks: seq<Option<string>>, i: nat, toDecode: Option<string>, rest: string)
    requires i < |chunks|
    requires Split(toDecode, rest) == SplitFrames(Run(chunks[..i]).remainder, chunks[i])
    ensures Run(chunks[..i + 1]).remainder == rest
    ensures DecodeEach(Run(chunks[..i + 1]).emitted) == Absorb(DecodeEach(Run(chunks[..i]).emitted), toDecode)
  {
    RunPrefix(chunks, i);
    var state := Run(chunks[..i]);
    if toDecode.Some? {
      DecodeEachSnoc(state.emitted, toDecode.value);
    } else {
      assert state.emitted + [] == state.emitted;
    }
  }

  /** The decode, if any, of one loop step: a string that does not decode
      ends the loop. */
  method DecodeSlice(yielded: seq<seq<byte>>, toDecode: Option<string>) returns (out: seq<seq<byte>>, failed: bool)
    ensures Decoded(out, failed) == Absorb(Decoded(yielded, false), toDecode)
  {
    out, failed := yielded, false;
    if toDecode.Some? {
      var bytes := DecodeBase64(toDecode.value);
      if bytes.None? {
        failed := true;
      } else {
        out := yielded + [bytes.value];
      }
    }
  }

  /** Once a decode has failed, later chunks change nothing that is yielded. */
  lemma {:induction false} AfterFailureNothingMore(chunks: seq<Option<string>>, i: nat)
    requires i <= |chunks|
    requires DecodeEach(Run(chunks[..i]).emitted).failed
    ensures DecodeEach(Run(chunks).emitted) == DecodeEach(Run(chunks[..i]).emitted)
    decreases |chunks| - i
  {
    if i < |chunks| {
      var next := chunks[..i + 1];
      assert next[..i] == chunks[..i];
      var es := Run(chunks[..i]).emitted;
      var es' := Run(next).emitted;
      if es' != es {
        assert |es'| == |es| + 1 && es'[..|es|] == es;
      }
      AfterFailureNothingMore(chunks, i + 1);
    } else {
      assert chunks[..i] == chunks;
    }
  }

  // ---------------------------------------------------------------------------
  // Joining the buffers (`generateDetectiveAudio`)

  /** The joining loop of `generateDetectiveAudio`: `null` when there are no
      chunks, otherwise every chunk copied in order into one buffer of the
      total length. */
  method CombineChunks(chunks: seq<seq<byte>>) returns (r: Option<seq<byte>>)
    ensures r.None? <==> chunks == []
    ensures r.Some? ==> |r.value| == TotalLength(chunks) && r.value == Flatten(chunks)
  {
    if |chunks| == 0 {
      return None;
    }
    FlattenLength(chunks);
    var totalLength := TotalLength(chunks);
    var result := new byte[totalLength];
    var offset := 0;
    for k := 0 to |chunks|
      invariant offset == |Flatten(chunks[..k])| <= totalLength
      invariant result[..offset] == Flatten(chunks[..k])
    {
      PrefixSnoc(chunks, k);
      SetAt(result, chunks[k], offset);
      offset := offset + |chunks[k]|;
    }
    assert chunks[..|chunks|] == chunks;
    r := Some(result[..]);
  }

  /** One more chunk of the joined prefix, which stays within the whole. */
  lemma PrefixSnoc(chunks: seq<seq<byte>>, k: nat)
    requires k < |chunks|
    ensures Flatten(chunks[..k + 1]) == Flatten(chunks[..k]) + chunks[k]
    ensures |Flatten(chunks[..k + 1])| <= |Flatten(chunks)|
  {
    assert chunks[..k + 1] == chunks[..k] + [chunks[k]];
    FlattenSnoc(chunks[..k], chunks[k]);
    FlattenAppend(chunks[..k + 1], chunks[k + 1..]);
    assert chunks[..k + 1] + chunks[k + 1..] == chunks;
  }

  /** `result.set(chunk, offset)`: the chunk copied in after the first
      `offset` bytes; the bytes before and after it are kept. */
  method SetAt(result: array<byte>, chunk: seq<byte>, offset: nat)
    requires offset + |chunk| <= result.Length
    modifies result
    ensures result[..offset + |chunk|] == old(result[..offset]) + chunk
    ensures result[offset + |chunk|..] == old(result[offset + |chunk|..])
  {
    for j := 0 to |chunk|
      invariant result[..offset] == old(result[..offset])
      invariant result[offset + |chunk|..] == old(result[offset + |chunk|..])
      invariant forall t :: 0 <= t < j ==> result[offset + t] == chunk[t]
    {
      result[offset + j] := chunk[j];
    }
    assert result[..offset + |chunk|] == old(result[..offset]) + chunk;
  }

  /** `generateDetectiveAudio`: the whole stream as one buffer, or `null`. */
  method GenerateDetectiveAudio(stream: ResponseStream) returns (r: Option<seq<byte>>)
    ensures r.None? <==> AudioChunks(stream) == []
    ensures r.Some? ==> r.value == Flatten(AudioChunks(stream))
  {
    var chunks := StreamDetectiveAudio(stream);
    r := CombineChunks(chunks);
  }

  // ---------------------------------------------------------------------------
  // End to end: an encoded PCM stream comes out whole

  /** Every buffer is a whole number of 6-byte frames (three 16-bit samples). */
  predicate WholeFrames(bs: seq<seq<byte>>)
  {
    forall k :: 0 <= k < |bs| ==> |bs[k]| % 6 == 0
  }

  lemma AlignedSnoc(es: seq<string>)
    requires Aligned(es) && es != []
    ensures Aligned(es[..|es| - 1])
    ensures |es[|es| - 1]| % 8 == 0
  {
  }

  lemma EightIsFour(n: nat)
    requires n % 8 == 0
    ensures n % 4 == 0
  {
  }

  /** Decoding aligned, alphabet-only strings one by one never fails, gives six
      bytes per 8 characters, and gives what decoding their concatenation gives. */
  lemma {:induction false} DecodeEachOfAlphabet(es: seq<string>)
    requires Aligned(es) && AllBase64(Flatten(es))
    ensures !DecodeEach(es).failed
    ensures |DecodeEach(es).buffers| == |es|
    ensures Flatten(DecodeEach(es).buffers) == DecodeQuads(Flatten(es))
    ensures WholeFrames(DecodeEach(es).buffers)
  {
    if es != [] {
      var init := es[..|es| - 1];
      var last := es[|es| - 1];
      AlignedSnoc(es);
      assert es == init + [last];
      FlattenSnoc(init, last);
      AllBase64Split(Flatten(init), last);
      DecodeEachOfAlphabet(init);
      var prev := DecodeEach(init);
      AlignedDecode(last);
      var b := ForgivingDecode(last).value;
      DecodeEachSnoc(init, last);
      DecodeNextOfAligned(prev, last);
      FlattenAligned(init);
      EightIsFour(|Flatten(init)|);
      DecodeQuadsAppend(Flatten(init), last);
      StripPaddingOfBase64(last);
      FlattenSnoc(prev.buffers, b);
    }
  }

  /** One aligned alphabet-only string decodes to a buffer of whole frames. */
  lemma DecodeNextOfAligned(prev: Decoded, e: string)
    requires !prev.failed && WholeFrames(prev.buffers)
    requires AllBase64(e) && |e| % 8 == 0
    ensures ForgivingDecode(e).Some?
    ensures DecodeNext(prev, e) == Decoded(prev.buffers + [ForgivingDecode(e).value], false)
    ensures WholeFrames(DecodeNext(prev, e).buffers)
  {
    AlignedDecode(e);
    WholeFramesSnoc(prev.buffers, ForgivingDecode(e).value);
  }

  lemma WholeFramesSnoc(bs: seq<seq<byte>>, b: seq<byte>)
    requires WholeFrames(bs) && |b| % 6 == 0
    ensures WholeFrames(bs + [b])
  {
  }

  /** Every buffer but the last is a whole number of 6-byte frames. */
  predicate WholeFramesButLast(bs: seq<seq<byte>>)
  {
    forall k :: 0 <= k < |bs| - 1 ==> |bs[k]| % 6 == 0
  }

  /** The end-to-end property on the reassembler's output: aligned strings
      followed by a short remainder that together are the encoding of `pcm`. */
  lemma FinishDeliversEncodedAudio(pcm: seq<byte>, es: seq<string>, remainder: string)
    requires Aligned(es) && |remainder| < FrameChars
    requires Flatten(es) + remainder == Encode(pcm)
    ensures Flatten(Finish(DecodeEach(es), false, remainder)) == pcm
    ensures WholeFramesButLast(Finish(DecodeEach(es), false, remainder))
  {
    if remainder != "" {
      FinishWithRemainder(pcm, es, remainder);
    } else if es == [] {
      RoundTrip(pcm);
      assert Encode(pcm) == "";
    } else {
      assert Flatten(es) + remainder == Flatten(es);
      FinishOnFrame(pcm, es);
    }
  }

  /** The stream ends with a remainder: it is decoded last, after every
      aligned string. */
  lemma FinishWithRemainder(pcm: seq<byte>, es: seq<string>, remainder: string)
    requires Aligned(es) && remainder != ""
    requires Flatten(es) + remainder == Encode(pcm)
    ensures Flatten(Finish(DecodeEach(es), false, remainder)) == pcm
    ensures WholeFramesButLast(Finish(DecodeEach(es), false, remainder))
  {
    var f := Flatten(es);
    FlattenAligned(es);
    EightIsFour(|f|);
    EncodeWellFormed(pcm);
    RoundTrip(pcm);
    SplitWellFormed(f, remainder);
    DecodeEachOfAlphabet(es);
    var decoded := DecodeEach(es);
    WellFormedDecodes(remainder);
    var tail := ForgivingDecode(remainder).value;
    assert Finish(decoded, false, remainder) == decoded.buffers + [tail];
    FlattenSnoc(decoded.buffers, tail);
  }

  /** The stream ends on a frame boundary: the last aligned string carries
      the padding and the last bytes. */
  lemma FinishOnFrame(pcm: seq<byte>, es: seq<string>)
    requires Aligned(es) && es != []
    requires Flatten(es) == Encode(pcm)
    ensures Flatten(Finish(DecodeEach(es), false, "")) == pcm
    ensures WholeFramesButLast(Finish(DecodeEach(es), false, ""))
  {
    var init := es[..|es| - 1];
    var last := es[|es| - 1];
    AlignedSnoc(es);
    assert es == init + [last];
    FlattenSnoc(init, last);
    FlattenAligned(init);
    EightIsFour(|Flatten(init)|);
    EncodeWellFormed(pcm);
    RoundTrip(pcm);
    SplitWellFormed(Flatten(init), last);
    DecodeEachOfAlphabet(init);
    var prev := DecodeEach(init);
    WellFormedDecodes(last);
    var b := ForgivingDecode(last).value;
    DecodeEachSnoc(init, last);
    assert DecodeEach(es) == Decoded(prev.buffers + [b], false);
    FlattenSnoc(prev.buffers, b);
  }

  /** When the fragments, joined, are the base64 encoding of `pcm` and the
      stream ends normally, the yielded buffers joined are `pcm` again, and
      every buffer but the last is a whole number of 6-byte frames. */
  lemma StreamDeliversEncodedAudio(pcm: seq<byte>, chunks: seq<Option<string>>)
    requires Payload(chunks) == Encode(pcm)
    ensures Flatten(AudioChunks(Opened(chunks, false))) == pcm
    ensures WholeFramesButLast(AudioChunks(Opened(chunks, false)))
  {
    var run := Run(chunks);
    RunPreservesPayload(chunks);
    FinishDeliversEncodedAudio(pcm, run.emitted, run.remainder);
  }

  /** Fragments "QUJD", "REVG", "R0g=": nothing is decoded after the first,
      "QUJDREVG" (the bytes of "ABCDEF") after the second, and the final
      remainder "R0g=" (the bytes of "GH") once the stream ends. */
  lemma ThreeFragmentExample()
    ensures Run([Some("QUJD"), Some("REVG"), Some("R0g=")]) == Reassembly(["QUJDREVG"], "R0g=")
    ensures AudioChunks(Opened([Some("QUJD"), Some("REVG"), Some("R0g=")], false))
      == [[65, 66, 67, 68, 69, 70], [71, 72]]
  {
    ThreeFragmentRun();
    ExampleDecodes();
    var one: seq<string> := ["QUJDREVG"];
    assert one[..0] == [];
    assert DecodeEach(one) == Decoded([[65, 66, 67, 68, 69, 70]], false);
  }

  lemma ThreeFragmentRun()
    ensures Run([Some("QUJD"), Some("REVG"), Some("R0g=")]) == Reassembly(["QUJDREVG"], "R0g=")
  {
    var cs := [Some("QUJD"), Some("REVG"), Some("R0g=")];
    TwoFragmentRun();
    ExampleSteps();
    assert cs[..2] == [Some("QUJD"), Some("REVG")];
  }

  lemma TwoFragmentRun()
    ensures Run([Some("QUJD"), Some("REVG")]) == Reassembly(["QUJDREVG"], "")
  {
    var cs := [Some("QUJD"), Some("REVG")];
    ExampleSteps();
    assert cs[..1] == [Some("QUJD")];
    assert [Some("QUJD")][..0] == [];
    assert Run(cs[..1]) == Reassembly([], "QUJD");
  }

  lemma ExampleSteps()
    ensures SplitFrames("", Some("QUJD")) == Split(None, "QUJD")
    ensures SplitFrames("QUJD", Some("REVG")) == Split(Some("QUJDREVG"), "")
    ensures SplitFrames("", Some("R0g=")) == Split(None, "R0g=")
  {
    var c := "QUJD" + "REVG";
    assert c == "QUJDREVG" && |c| == 8 && c[..8] == c && c[8..] == "";
  }

  /** The two decoded pieces of the example: "ABCDEF" and "GH". */
  lemma ExampleDecodes()
    ensures ForgivingDecode("QUJDREVG") == Some([65, 66, 67, 68, 69, 70])
    ensures ForgivingDecode("R0g=") == Some([71, 72])
  {
    var first := "QUJDREVG";
    assert AllBase64(first);
    StripPaddingOfBase64(first);
    assert first[4..] == "REVG" && first[4..][4..] == "";
    assert SextetOf('Q') == 16 && SextetOf('U') == 20 && SextetOf('J') == 9 && SextetOf('D') == 3;
    assert SextetOf('R') == 17 && SextetOf('E') == 4 && SextetOf('V') == 21 && SextetOf('G') == 6;
    assert DecodeQuads("REVG") == [68, 69, 70];
    assert DecodeQuads(first) == [65, 66, 67] + DecodeQuads("REVG") == [65, 66, 67, 68, 69, 70];
    DecodeStripped(first, first);
    assert StripPadding("R0g=") == "R0g";
    assert AllBase64("R0g");
    assert SextetOf('0') == 52 && SextetOf('g') == 32;
    assert DecodeQuads("R0g") == [71, 72];
    DecodeStripped("R0g=", "R0g");
  }
}
