# Audio streaming engine of the interrogation game, in Dafny

The game has two detectives, Harris and Moore, who speak their lines aloud. The speech
service answers each line with a stream of chunks. Each chunk may carry a
fragment of base64 text. Decoded, the fragments are 16-bit little-endian mono
PCM at 24 kHz. This project models, and proves properties of, the path from
those fragments to scheduled playback:

- **Reassembler** (`GeminiService`). It joins each fragment to a pending remainder.
  It hands the decoder the longest prefix whose length is a multiple of 8
  characters, because 8 characters carry 6 bytes, a whole number of samples. It
  decodes the final remainder once, best effort. `generateDetectiveAudio` joins
  all the buffers into one.
- **Decoder** (`Base64`). `decodeBase64` is `atob` followed by one byte per
  character. `atob` is the forgiving-base64 decode of the WHATWG Infra standard
  over the alphabet of RFC 4648, section 4. An encoder serves as its partner
  for the round trip.
- **Retry** (`Retry`). `retryOperation` retries rate-limit and overload errors,
  with a doubling delay.
- **PCM decoder** (`Pcm`). `decodePCM` turns bytes into an audio buffer of
  normalised samples, one list per channel.
- **Scheduler** (`Playback`). `stopAudio` and `playAudioStream` keep a cursor
  on the device clock and a list of playing sources. They also drive the
  speaking-detective signal. Pure transition functions define what each step
  does. The `AudioOutput` class performs the same steps in place and is
  proved against those functions.
- **Prefetch** (`Turn`). `processTurn` prefetches the first chunk, then builds
  a stream that replays that chunk and resumes the original one.
- **Quota check** (`Quota`). `checkQuotaError` decides whether a failed turn
  opens the quota dialog.

Device time, durations and samples are exact reals. The device clock is an
input `now`, and a buffer source is an id given out in creation order.

Two behaviours of the code worth knowing:

- The fragments "QUJD", "REVG", "R0g=" reach the decoder as two buffers:
  "QUJDREVG" (6 bytes) after the second fragment, then the remainder "R0g="
  (2 bytes) once the stream ends (`GeminiService.ThreeFragmentExample`).
- A source's `onended` handler clears the speaking signal when its own
  stream's counter reaches 0. The comment at App.tsx:175 states the intent:
  stop the mouth animation only when no more chunks are queued or playing.
  The two differ once a new stream has cut an old one short (see Findings).

## Model

| member | source | states |
|---|---|---|
| GeminiService.SplitFrames | services/geminiService.ts:211-228 | The loop body emits nothing for a missing or empty fragment and leaves the remainder unchanged. Otherwise it emits only a non-empty multiple of 8 characters, keeps as many characters as the remainder and fragment lengths leave modulo 8, and the emitted text followed by the new remainder is exactly the old remainder followed by the fragment. |
| GeminiService.RunPreservesPayload | services/geminiService.ts:208-230 | After any number of chunks, nothing is lost or duplicated: the emitted strings in order, followed by the remainder, are all fragments in arrival order. Every emitted string is non-empty with a length divisible by 8, and the remainder is shorter than 8. |
| GeminiService.RunSplitsAtLastFrame | services/geminiService.ts:213-228 | The emitted text is exactly the first `L - L % 8` characters of the payload of length `L`, and the remainder is its last `L % 8` characters. |
| GeminiService.AdvanceKeepsText | services/geminiService.ts:213-228 | One step adds exactly the new fragment to the emitted text followed by the remainder. |
| GeminiService.AdvanceKeepsAlignment | services/geminiService.ts:220-228 | One step keeps every emitted string aligned to 8 and the remainder shorter than 8. |
| GeminiService.DecodeBase64 | services/geminiService.ts:148-156 | The byte-filling loop gives the forgiving-base64 decoding of the input, or no result where `atob` throws. |
| GeminiService.ReassembleAndDecode | services/geminiService.ts:207-230 | The loop yields the decodings of the emitted strings in order. A failing decode ends it, and otherwise it leaves the remainder of the reassembly. |
| GeminiService.DecodeSlice | services/geminiService.ts:222-225 | A step that emits a string yields its decoding, or fails when it does not decode. A step that emits nothing changes nothing. |
| GeminiService.RunStep | services/geminiService.ts:210-229 | One loop iteration advances the reassembly and the decoding state by exactly one chunk. |
| GeminiService.AfterFailureNothingMore | services/geminiService.ts:222-241 | Once a decode has thrown, later chunks add nothing to what is yielded. |
| GeminiService.StreamDetectiveAudio | services/geminiService.ts:179-242 | The generator yields nothing if the connection fails. Otherwise it yields the in-loop buffers, and then the final remainder decoded exactly once when it is non-empty and the loop ended normally. A failure of that last decode is swallowed. |
| GeminiService.CombineChunks | services/geminiService.ts:166-176 | The result is `null` iff there are no chunks. Otherwise it has the total length and equals the chunks joined in order. |
| GeminiService.SetAt | services/geminiService.ts:173 | `result.set(chunk, offset)` copies the chunk in right after the first `offset` bytes, and leaves the bytes before and after it unchanged. |
| GeminiService.PrefixSnoc | services/geminiService.ts:172-175 | Each copied chunk extends the joined prefix, which stays within the total length. |
| GeminiService.GenerateDetectiveAudio | services/geminiService.ts:158-177 | The result is `null` iff the stream yields nothing, and otherwise is everything it yields, joined in order. |
| GeminiService.DecodeEachOfAlphabet | services/geminiService.ts:215-225 | Decoding aligned alphabet-only strings one by one never fails. It gives one buffer per string, each a whole number of 6-byte frames, and together they are the decoding of the strings joined. |
| GeminiService.DecodeNextOfAligned | services/geminiService.ts:220-225 | An aligned alphabet-only string decodes, and adding its buffer keeps every buffer a whole number of frames. |
| GeminiService.StreamDeliversEncodedAudio | services/geminiService.ts:207-238 | When the fragments joined are the base64 encoding of some PCM and the stream ends normally, the yielded buffers joined are exactly that PCM. Every buffer but the last is a whole number of 6-byte frames. |
| GeminiService.FinishDeliversEncodedAudio | services/geminiService.ts:232-237 | The final decode completes the PCM whether or not a remainder is left. |
| GeminiService.FinishWithRemainder | services/geminiService.ts:232-237 | A non-empty final remainder is decoded last, after every aligned string. |
| GeminiService.FinishOnFrame | services/geminiService.ts:220-225 | When the stream ends on a frame boundary, the last aligned string carries the padding and the last bytes. |
| GeminiService.ThreeFragmentExample | services/geminiService.ts:213-237 | The fragments "QUJD", "REVG", "R0g=" emit "QUJDREVG" after the second fragment and leave "R0g=". The stream yields the bytes of "ABCDEF", then those of "GH". |
| GeminiService.ExampleSteps | services/geminiService.ts:220-228 | Each of the example's steps splits as stated. |
| GeminiService.ExampleDecodes | services/geminiService.ts:148-156 | "QUJDREVG" decodes to the bytes of "ABCDEF" and "R0g=" to those of "GH". |
| Base64.Atob | services/geminiService.ts:149-153 | `atob` fails exactly when the decoding fails. Otherwise its binary string has one character per decoded byte, with character `i`'s code equal to byte `i`. |
| Base64.DecodeQuadsLength | services/geminiService.ts:149-151 | Each full group of four characters decodes to three bytes, and a short final group to one byte fewer than its characters. |
| Base64.AlignedDecode | services/geminiService.ts:215-219 | An alphabet-only input of `8k` characters decodes to exactly `6k` bytes, an even count. |
| Base64.RoundTrip | services/geminiService.ts:148-156 | Decoding undoes encoding: the decoding of the padded encoding of any bytes gives back those bytes. |
| Base64.DecodeEncodeUnpadded | services/geminiService.ts:148-156 | The group-by-group decoding of the unpadded encoding of any bytes gives back those bytes. |
| Base64.GroupRoundTrip | services/geminiService.ts:149 | Three bytes encode as four alphabet characters that decode back to them. |
| Base64.ShortRoundTrip | services/geminiService.ts:149 | A final group of one or two bytes decodes back to those bytes. |
| Base64.SplitWellFormed | services/geminiService.ts:220-225 | Cutting a well-formed padded text after a multiple of four characters gives an alphabet-only front and a well-formed back. Decoding the whole is decoding the front, then the back. |
| Base64.DecodeQuadsAppend | services/geminiService.ts:220-225 | Decoding is compositional at a group boundary. |
| Base64.StripPaddingOfPadded | services/geminiService.ts:149 | Alphabet characters followed by `=` or `==`, a multiple of four long, lose exactly that padding. |
| Base64.EncodeLength | services/geminiService.ts:215-219 | A padded encoding has four characters per started group of three bytes. |
| Base64.CharOf | services/geminiService.ts:149 | The alphabet character of a six-bit value is an alphabet character whose value is that value. |
| Retry.EffectiveCode | services/geminiService.ts:52 | The code the error carries is its status unless it is missing or 0, and otherwise the code. |
| Retry.ContainsIffOccurs | services/geminiService.ts:53 | `includes` holds iff the pattern occurs at some position. |
| Retry.RetryOperation | services/geminiService.ts:48-63 | At most `retries` waits. The result is that of the call after the last wait, and every earlier call failed with a retryable error. A final error is either not retryable or came when no retries were left. |
| Retry.DelaysDouble | services/geminiService.ts:56-59 | The `k`-th wait is the initial delay doubled `k` times. |
| Retry.DefaultSchedule | services/geminiService.ts:48 | With the defaults there are at most four calls, and the waits are a prefix of 1000, 2000, 4000 ms. |
| Retry.NonRetryableRethrown | services/geminiService.ts:56-61 | An error that is neither a rate limit nor an overload is rethrown by the first call, without any wait. |
| Pcm.Int16LE | App.tsx:107 | A sample read from two little-endian bytes lies in [-32768, 32767]. |
| Pcm.Int16BytesRoundTrip | App.tsx:107 | Writing a 16-bit value as two bytes and reading it back gives the value. |
| Pcm.Int16LERoundTrip | App.tsx:107 | Reading two bytes as a sample and writing it back gives the bytes. |
| Pcm.DecodedPcm | App.tsx:96-122 | A decoded buffer has the requested sample rate, at least one frame, and one list per channel. |
| Pcm.DecodePCM | App.tsx:96-122 | The trimming, checks and nested filling loops compute exactly the buffer `DecodedPcm` defines, or `null`. |
| Pcm.FillChannel | App.tsx:111-116 | The inner loop fills frame `i` of channel `c` with sample `i * numChannels + c` divided by 32768. |
| Pcm.OddLengthTrimmed | App.tsx:99-102 | An odd-length input decodes exactly as that input without its last byte. |
| Pcm.TooShortIsNull | App.tsx:99-104 | Zero or one byte gives `null`, never an empty buffer. |
| Pcm.Layout | App.tsx:107-115 | A decoded buffer has `(len / 2) / numChannels` frames. Sample `i` of channel `c` is the little-endian 16-bit value at bytes `2(i·n + c)` and `2(i·n + c) + 1`, over 32768. |
| Pcm.SampleBounds | App.tsx:114 | Every sample lies in [-1, 32767/32768]. |
| Pcm.DefaultDecode | App.tsx:96-109 | With the defaults, two or more bytes give a mono 24 kHz buffer of `len / 2` frames lasting `(len / 2) / 24000` seconds. |
| Playback.AudioOutput.StopAudio | App.tsx:133-140 | `stopAudio` empties the active list, sets the cursor to 0 and the speaker to `null`. |
| Playback.StopIdempotent | App.tsx:133-140 | Stopping twice is stopping once, and a stopped engine has no source, cursor 0 and no speaker. |
| Playback.AudioOutput.Enqueue | App.tsx:158-170 | One buffer is started at `max(now, cursor)`, which is returned, and the cursor moves to its end. The new source joins the end of the list, the stream's counter grows by one, and the stream's detective becomes the speaker. |
| Playback.AudioOutput.PlayAudioStream | App.tsx:142-180 | The engine stops, opens the stream 0.1 s after `start`, and schedules each chunk in turn; its final state is that of the pure transitions. It returns the times the sources were started at: exactly the starts of the reference schedule of the decodable chunks, so `StartNotBeforeNow`, `NoOverlap` and `Gapless` hold of them. The stream's counter equals the number of buffers scheduled. |
| Playback.AudioOutput.PlayChunk | App.tsx:152-170 | One loop iteration performs the pure step for its chunk, adds one to the counter per buffer scheduled, and extends the list of start times with the reference start of that buffer. |
| Playback.StartsSnoc | App.tsx:162-164 | The start of one more buffer, `max(now, cursor)`, extends the starts of a schedule to the starts of the longer schedule. |
| Playback.PlayAllSchedules | App.tsx:152-170 | After the loop the cursor is where the schedule of the decodable chunks leaves it. One new source per such chunk has joined the list in order, and the stream's detective speaks once anything was scheduled. |
| Playback.StepFollows | App.tsx:152-170 | Each loop iteration extends that correspondence by one chunk. |
| Playback.SkippedChunk | App.tsx:153-156 | A missing, empty or single-byte chunk gives no buffer. A chunk without a buffer leaves the cursor, list, speaker and ids unchanged and schedules nothing. |
| Playback.StartNotBeforeNow | App.tsx:162 | No buffer starts before the current device time or before the cursor. |
| Playback.NoOverlap | App.tsx:162-164 | Each buffer starts no earlier than the end of the previous one. |
| Playback.Gapless | App.tsx:162-164 | A buffer handed over before the cursor has passed starts exactly where the previous one ends. |
| Playback.CursorAfter | App.tsx:164 | After a buffer, the cursor is its start plus its duration. |
| Playback.ScheduleExample | App.tsx:147-164 | A stream opened at `t` with buffers of 0.5 s and 0.3 s starts them at `t + 0.1` and `t + 0.6` and leaves the cursor at `t + 0.9`. |
| Playback.AudioOutput.OnEnded | App.tsx:172-179 | The source leaves the list and its stream's counter drops by one. The speaker is cleared when that counter reaches 0. |
| Playback.RemoveMembers | App.tsx:173 | The filter keeps exactly the other sources. |
| Playback.RemoveAt | App.tsx:173 | In a list without duplicates, the filter removes the one occurrence and keeps the others in order. |
| Playback.RemoveAbsent | App.tsx:173 | Filtering out a source that is not listed changes nothing. |
| Playback.TrackingPreserved | App.tsx:133-179 | Stopping, opening, scheduling and ended events keep the list duplicate-free and made only of created sources. |
| Playback.StaleEndedClearsSpeaker | App.tsx:172-179 | As written: Harris's source is cut off by Moore's new stream, and its ended event clears the signal while Moore's source plays. |
| Playback.SpeakerShownPreserved | App.tsx:133-179 | With the corrected handler, the detective is shown speaking whenever a source plays, through every transition. The signal is cleared when the list empties. |
| Playback.AudioOutput.OnEndedIfIdle | App.tsx:172-179 | The corrected handler removes the source and clears the speaker only when no source remains. |
| Playback.IdleAgreesWithCounter | App.tsx:172-179 | The corrected handler agrees with the written one whenever only one stream's sources play and its counter matches the list. |
| Turn.ChunkIterator.NextChunk | App.tsx:344-363 | `iterator.next()` yields the next chunk in order, and after the last chunk reports the stream's end. |
| Turn.PrefetchAndResume | App.tsx:341-365 | Playback is handed a stream iff the first chunk exists. That stream yields the first chunk, then the rest: exactly the original chunks in order, ending as the original ends. |
| Quota.CheckQuotaError | App.tsx:238-246 | Returns true iff the effective code is 429, the message contains "429", or the lower-cased message contains "quota". The dialog flag is raised exactly then and otherwise left as it was. |
| Quota.Lower | App.tsx:241 | Lower-casing keeps the length and maps each character on its own. |
| Quota.ContainsLower | App.tsx:241 | A lower-case word found in a text is found in its lower-cased text. |
| Quota.RateLimitIsQuota | App.tsx:238-246 | Every error the retry treats as a rate limit is a quota error for the game. |
| Quota.UpperCaseQuotaNotRetried | services/geminiService.ts:53-61 | The converse fails: a message "QUOTA" is a quota error for the game but is rethrown without any retry. |
| Common.FlattenLength | services/geminiService.ts:169 | The joined length equals the sum of the chunk lengths. |

## Left out

- Network and SDK: the speech service connection, `GoogleGenAI` and the
  response chunk structure. A stream is modelled as `ConnectFailed` or as
  its fragments (`inlineData.data` of each chunk, possibly missing) plus
  whether reading ended with an error.
- Retry timer: `retryOperation` is modelled as the sequence of delays it
  would wait, not the timer itself.
- `atob`: stripping ASCII whitespace from its input is not modelled; the
  model assumes that fragments carry no whitespace.
- Text length: `combined.length` and `substring` count UTF-16 code units,
  while a Dafny `string` counts Unicode scalar values. The two agree on base64
  text, which is ASCII; for other text the model's lengths are not the
  source's.
- `Base64.AlignedDecode` speaks of alphabet-only input. Fragments that
  carry `=` inside an 8-character slice decode as `ForgivingDecode` says,
  and nothing is claimed about them beyond that.
- Floating point: device time, durations and samples are exact reals. IEEE
  rounding is not modelled.
- `Pcm.DecodedPcm`: `Int16Array` is read as little-endian over the chunk's
  own bytes, without `byteOffset` alignment. A fractional frame count, which
  occurs only with several channels, is taken as its integer part. A channel
  count of 0 gives `null`, standing for the throw that `createBuffer` raises.
  The `createBuffer` limits are those of the Web Audio API.
- Web Audio API: `initAudio`, creating and connecting buffer sources, actual
  playback, and the `source.stop()` calls in `stopAudio` are not modelled.
  The ended events those calls cause later are modelled as explicit
  `OnEnded` calls.
- Concurrency: the fire-and-forget interleaving of `playAudioStream` with new
  turns is not modelled. Each call is a sequential trace of arrivals, and
  ended events are separate calls.
- The `catch` of `playAudioStream` (App.tsx:181-184) is not modelled.
  `streamDetectiveAudio` catches its own errors and `decodePCM` returns
  `null` on failure, so within the model no error reaches it.
- `Turn.PrefetchAndResume`: an iterator throwing after the first chunk is
  modelled only as the way the stream ends (`Threw`). The prefetch's
  `catch`, and whatever `playAudioStream` does with that error, are
  not modelled.
- `Quota.Lower`: `toLowerCase` is modelled on ASCII letters only. Unicode
  case mapping is not modelled.
- React state, rendering, recording, `handleSendMessage` and the other UI
  handlers are not modelled. Of `processTurn`, only the prefetch and
  resume are modelled.

## Findings

| source | as written | input that shows it | evidently intended | confidence | as-written member | corrected member |
|---|---|---|---|---|---|---|
| App.tsx:172-179 | `onended` clears the speaking signal when its own stream's `activeCount` reaches 0, even when another stream is now playing | Harris's stream schedules source 0. Moore's stream begins (stopping source 0) and schedules source 1. Source 0's ended event then brings Harris's counter to 0 and clears the signal while source 1 plays | clear the signal only when no source remains playing | not executed | Playback.StaleEndedClearsSpeaker | Playback.SpeakerShownPreserved |
