/** The audio output engine of `App.tsx`: `stopAudio`, and `playAudioStream`,
    which schedules each decoded buffer back to back on the device clock,
    tracks the playing sources and drives the speaking-detective signal.
    The device clock is an input (`now`), a buffer source is an id handed
    out in creation order, and the Web Audio calls themselves are outside. */
module Playback {
  import opened Common
  import opened Pcm

  /** The identity of a buffer source, in order of creation. */
  type SourceId = nat

  /** The lead between opening a stream and its earliest start, in seconds. */
  const StartLead: real := 0.1

  /** The engine's state: the `nextStartTimeRef` cursor, the
      `activeSourcesRef` list, the `audioSpeaker` signal, and how many sources
      have been created (the next id). */
  datatype PlayerState = PlayerState(
    nextStartTime: real,
    activeSources: seq<SourceId>,
    audioSpeaker: Option<Detective>,
    sourcesCreated: nat)

  function Max(a: real, b: real): (m: real)
    ensures m >= a && m >= b && (m == a || m == b)
  {
    if a >= b then a else b
  }

  /** `stopAudio`: no source left, the cursor at 0, no one speaking. */
  function Stopped(s: PlayerState): PlayerState
  {
    PlayerState(0.0, [], None, s.sourcesCreated)
  }

  /** The start of `playAudioStream`: everything stopped, then the cursor set
      to the device time plus the lead. */
  function Begin(s: PlayerState, now: real): PlayerState
  {
    Stopped(s).(nextStartTime := now + StartLead)
  }

  /** One buffer of `duration` seconds scheduled at device time `now`: a new
      source starts at `max(now, cursor)`, the cursor moves to its end, the
      source joins the active list and the stream's detective speaks. */
  function Scheduled(s: PlayerState, now: real, duration: real, speaker: Detective): PlayerState
  {
    var startAt := Max(now, s.nextStartTime);
    PlayerState(startAt + duration, s.activeSources + [s.sourcesCreated], Some(speaker), s.sourcesCreated + 1)
  }

  /** `list.filter(s => s !== source)`. */
  function Remove(xs: seq<SourceId>, x: SourceId): seq<SourceId>
  {
    if xs == [] then []
    else Remove(xs[..|xs| - 1], x) + (if xs[|xs| - 1] == x then [] else [xs[|xs| - 1]])
  }

  /** A source's `onended` handler, as written: the source leaves the list
      and the speaker is cleared when its own stream's counter, already
      decremented to `count`, is 0. */
  function Ended(s: PlayerState, source: SourceId, count: int): PlayerState
  {
    s.(activeSources := Remove(s.activeSources, source),
       audioSpeaker := if count == 0 then None else s.audioSpeaker)
  }

  /** One chunk delivered by the stream, and the device time when it arrives. */
  datatype Arrival = Arrival(chunk: Option<seq<byte>>, now: real)

  /** The buffer a chunk becomes: none for a missing or empty chunk, else
      `decodePCM` with its defaults. */
  function BufferOf(chunk: Option<seq<byte>>): (r: Option<AudioBuffer>)
    ensures r.Some? ==> r.value.sampleRate == DefaultSampleRate
  {
    if chunk.None? || |chunk.value| == 0 then None
    else DecodedPcm(chunk.value, DefaultSampleRate, DefaultChannels)
  }

  /** One iteration of the loop of `playAudioStream`. */
  function PlayStep(s: PlayerState, a: Arrival, speaker: Detective): PlayerState
  {
    match BufferOf(a.chunk)
    case None => s
    case Some(b) => Scheduled(s, a.now, Duration(b), speaker)
  }

  /** The state after the loop has consumed `arrivals`. */
  function PlayAll(s: PlayerState, arrivals: seq<Arrival>, speaker: Detective): PlayerState
  {
    if arrivals == [] then s
    else PlayStep(PlayAll(s, arrivals[..|arrivals| - 1], speaker), arrivals[|arrivals| - 1], speaker)
  }

  lemma PlayAllPrefix(s: PlayerState, arrivals: seq<Arrival>, speaker: Detective, k: nat)
    requires k < |arrivals|
    ensures PlayAll(s, arrivals[..k + 1], speaker) == PlayStep(PlayAll(s, arrivals[..k], speaker), arrivals[k], speaker)
  {
    assert arrivals[..k + 1][..k] == arrivals[..k];
  }

  // ---------------------------------------------------------------------------
  // The schedule, independently of the engine's state

  /** A buffer to play: when it was handed over, and for how long it plays. */
  datatype Job = Job(now: real, duration: real)

  /** The buffers the loop schedules, in order: one per decodable chunk. */
  function Jobs(arrivals: seq<Arrival>): seq<Job>
  {
    if arrivals == [] then [] else Jobs(arrivals[..|arrivals| - 1]) + JobOf(arrivals[|arrivals| - 1])
  }

  /** The buffer one chunk contributes to the schedule, if any. */
  function JobOf(a: Arrival): (r: seq<Job>)
    ensures |r| <= 1
  {
    match BufferOf(a.chunk)
    case None => []
    case Some(b) => [Job(a.now, Duration(b))]
  }

  /** The cursor after scheduling `jobs` from cursor `c0`. */
  function Cursor(c0: real, jobs: seq<Job>): real
  {
    if jobs == [] then c0
    else Max(jobs[|jobs| - 1].now, Cursor(c0, jobs[..|jobs| - 1])) + jobs[|jobs| - 1].duration
  }

  /** When job `k` starts. */
  function StartOf(c0: real, jobs: seq<Job>, k: nat): real
    requires k < |jobs|
  {
    Max(jobs[k].now, Cursor(c0, jobs[..k]))
  }

  lemma CursorAfter(c0: real, jobs: seq<Job>, k: nat)
    requires k < |jobs|
    ensures Cursor(c0, jobs[..k + 1]) == StartOf(c0, jobs, k) + jobs[k].duration
  {
    assert jobs[..k + 1][..k] == jobs[..k];
  }

  /** No buffer is scheduled in the past, nor before the cursor. */
  lemma StartNotBeforeNow(c0: real, jobs: seq<Job>, k: nat)
    requires k < |jobs|
    ensures StartOf(c0, jobs, k) >= jobs[k].now
    ensures StartOf(c0, jobs, k) >= Cursor(c0, jobs[..k])
  {
  }

  /** Buffers never overlap: each starts no earlier than the end of the one
      before it. */
  lemma NoOverlap(c0: real, jobs: seq<Job>, k: nat)
    requires k + 1 < |jobs|
    ensures StartOf(c0, jobs, k + 1) >= StartOf(c0, jobs, k) + jobs[k].duration
  {
    CursorAfter(c0, jobs, k);
  }

  /** When a buffer is handed over before the cursor has passed, it starts
      exactly where the previous one ends: playback is gapless. */
  lemma Gapless(c0: real, jobs: seq<Job>, k: nat)
    requires k + 1 < |jobs|
    requires jobs[k + 1].now <= Cursor(c0, jobs[..k + 1])
    ensures StartOf(c0, jobs, k + 1) == StartOf(c0, jobs, k) + jobs[k].duration
  {
    CursorAfter(c0, jobs, k);
  }

  /** A stream opened at time `t` with buffers of 0.5 s and 0.3 s, the second
      handed over at `t + 0.2`: they start at `t + 0.1` and `t + 0.6`, and the
      cursor ends at `t + 0.9`. */
  lemma ScheduleExample(t: real)
    ensures var jobs := [Job(t, 0.5), Job(t + 0.2, 0.3)];
      StartOf(t + StartLead, jobs, 0) == t + 0.1 &&
      StartOf(t + StartLead, jobs, 1) == t + 0.6 &&
      Cursor(t + StartLead, jobs) == t + 0.9
  {
    var jobs := [Job(t, 0.5), Job(t + 0.2, 0.3)];
    assert jobs[..0] == [];
    assert jobs[..1] == [Job(t, 0.5)] && [Job(t, 0.5)][..0] == [];
    assert jobs[..2] == jobs;
    CursorAfter(t + StartLead, jobs, 0);
    CursorAfter(t + StartLead, jobs, 1);
  }

  // ---------------------------------------------------------------------------
  // The engine against the schedule

  /** `n` consecutive ids from `first`. */
  function Ids(first: nat, n: nat): (r: seq<SourceId>)
    ensures |r| == n && forall i :: 0 <= i < n ==> r[i] == first + i
  {
    seq(n, i requires 0 <= i < n => first + i)
  }

  /** A chunk that is missing, empty or a single byte gives no buffer, and a
      chunk without a buffer schedules nothing: cursor, list, speaker and ids
      stay as they were. */
  lemma SkippedChunk(s: PlayerState, a: Arrival, speaker: Detective)
    ensures a.chunk.None? || |a.chunk.value| <= 1 ==> BufferOf(a.chunk).None?
    ensures BufferOf(a.chunk).None? ==> PlayStep(s, a, speaker) == s && JobOf(a) == []
  {
    if a.chunk.Some? && |a.chunk.value| == 1 {
      TooShortIsNull(a.chunk.value, DefaultSampleRate, DefaultChannels);
    }
  }

  /** The engine after the loop has consumed some chunks: the cursor is
      where the schedule `jobs` leaves it from `c0`, their sources have joined
      the list in order, and the speaker is set once anything was scheduled. */
  predicate Follows(r: PlayerState, s: PlayerState, jobs: seq<Job>, speaker: Detective)
  {
    r.nextStartTime == Cursor(s.nextStartTime, jobs) &&
    r.activeSources == s.activeSources + Ids(s.sourcesCreated, |jobs|) &&
    r.sourcesCreated == s.sourcesCreated + |jobs| &&
    r.audioSpeaker == (if |jobs| == 0 then s.audioSpeaker else Some(speaker))
  }

  lemma StepFollows(r: PlayerState, s: PlayerState, jobs: seq<Job>, a: Arrival, speaker: Detective)
    requires Follows(r, s, jobs, speaker)
    ensures Follows(PlayStep(r, a, speaker), s, jobs + JobOf(a), speaker)
  {
    match BufferOf(a.chunk)
    case None =>
      assert jobs + JobOf(a) == jobs;
    case Some(b) =>
      var js := jobs + JobOf(a);
      var n := |jobs|;
      assert js[..n] == jobs;
      assert Ids(s.sourcesCreated, n) + [s.sourcesCreated + n] == Ids(s.sourcesCreated, n + 1);
  }

  /** After the loop, the cursor is where the schedule of the decodable chunks
      leaves it, one new source per such chunk has joined the list in order,
      and the stream's detective speaks once anything was scheduled. */
  lemma {:induction false} PlayAllSchedules(s: PlayerState, arrivals: seq<Arrival>, speaker: Detective)
    ensures Follows(PlayAll(s, arrivals, speaker), s, Jobs(arrivals), speaker)
  {
    if arrivals == [] {
      assert Ids(s.sourcesCreated, 0) == [];
    } else {
      var init := arrivals[..|arrivals| - 1];
      PlayAllSchedules(s, init, speaker);
      StepFollows(PlayAll(s, init, speaker), s, Jobs(init), arrivals[|arrivals| - 1], speaker);
    }
  }

  // ---------------------------------------------------------------------------
  // The active list

  predicate NoDuplicates(xs: seq<SourceId>)
  {
    forall i, j :: 0 <= i < j < |xs| ==> xs[i] != xs[j]
  }

  /** The filter keeps exactly the other sources. */
  lemma {:induction false} RemoveMembers(xs: seq<SourceId>, x: SourceId)
    ensures forall y :: y in Remove(xs, x) <==> y in xs && y != x
  {
    if xs != [] {
      var init := xs[..|xs| - 1];
      RemoveMembers(init, x);
      assert xs == init + [xs[|xs| - 1]];
    }
  }

  /** A source that is not in the list leaves it unchanged. */
  lemma {:induction false} RemoveAbsent(xs: seq<SourceId>, x: SourceId)
    requires x !in xs
    ensures Remove(xs, x) == xs
  {
    if xs != [] {
      var init := xs[..|xs| - 1];
      assert xs == init + [xs[|xs| - 1]];
      RemoveAbsent(init, x);
    }
  }

  /** In a list without duplicates, the filter removes the one occurrence
      and keeps the order of the others. */
  lemma {:induction false} RemoveAt(xs: seq<SourceId>, x: SourceId, k: nat)
    requires NoDuplicates(xs) && k < |xs| && xs[k] == x
    ensures Remove(xs, x) == xs[..k] + xs[k + 1..]
  {
    var last := |xs| - 1;
    var init := xs[..last];
    assert xs == init + [xs[last]];
    if k == last {
      assert x !in init;
      RemoveAbsent(init, x);
    } else {
      assert NoDuplicates(init);
      RemoveAt(init, x, k);
      assert xs[last] != x;
      assert init[..k] == xs[..k];
      assert init[k + 1..] + [xs[last]] == xs[k + 1..];
    }
  }

  /** Every active source has been created, and none is listed twice. */
  predicate WellTracked(s: PlayerState)
  {
    NoDuplicates(s.activeSources) && forall i :: 0 <= i < |s.activeSources| ==> s.activeSources[i] < s.sourcesCreated
  }

  lemma {:induction false} RemoveKeepsTracked(xs: seq<SourceId>, x: SourceId, bound: nat)
    requires NoDuplicates(xs) && forall i :: 0 <= i < |xs| ==> xs[i] < bound
    ensures NoDuplicates(Remove(xs, x)) && forall i :: 0 <= i < |Remove(xs, x)| ==> Remove(xs, x)[i] < bound
  {
    if xs != [] {
      var init := xs[..|xs| - 1];
      var last := xs[|xs| - 1];
      assert xs == init + [last];
      RemoveKeepsTracked(init, x, bound);
      RemoveMembers(init, x);
      var r := Remove(init, x);
      if last != x {
        assert last !in init;
        assert last !in r;
        assert Remove(xs, x) == r + [last];
        forall i, j | 0 <= i < j < |r| + 1 ensures (r + [last])[i] != (r + [last])[j] {
          if j == |r| {
            assert r[i] in r;
          }
        }
      } else {
        assert Remove(xs, x) == r;
      }
    }
  }

  /** Stopping, beginning, scheduling and ended events keep the list
      duplicate-free and made of created sources. */
  lemma TrackingPreserved(s: PlayerState, now: real, duration: real, speaker: Detective, source: SourceId, count: int)
    requires WellTracked(s)
    ensures WellTracked(Stopped(s)) && WellTracked(Begin(s, now))
    ensures WellTracked(Scheduled(s, now, duration, speaker))
    ensures WellTracked(Ended(s, source, count))
  {
    RemoveKeepsTracked(s.activeSources, source, s.sourcesCreated);
    var t := Scheduled(s, now, duration, speaker);
    assert forall i :: 0 <= i < |s.activeSources| ==> t.activeSources[i] == s.activeSources[i];
  }

  /** `stopAudio` twice is `stopAudio` once. */
  lemma StopIdempotent(s: PlayerState)
    ensures Stopped(Stopped(s)) == Stopped(s)
    ensures Stopped(s).activeSources == [] && Stopped(s).nextStartTime == 0.0 && Stopped(s).audioSpeaker == None
  {
  }

  // ---------------------------------------------------------------------------
  // The speaking signal after a stream is cut short

  /** The detective is shown speaking whenever a source is playing. */
  predicate SpeakerShown(s: PlayerState)
  {
    s.activeSources != [] ==> s.audioSpeaker.Some?
  }

  /** As written, an ended event of a stream that `stopAudio` cut short clears
      the signal while the next stream plays: Harris's stream schedules source
      0, Moore's stream begins (stopping source 0) and schedules source 1, and
      then source 0's `ended` event brings Harris's counter to 0. */
  lemma StaleEndedClearsSpeaker(t1: real, t2: real)
    ensures var harris := Scheduled(Begin(PlayerState(0.0, [], None, 0), t1), t1, 1.0, Harris);
      var moore := Scheduled(Begin(harris, t2), t2, 1.0, Moore);
      var after := Ended(moore, 0, 0);
      SpeakerShown(moore) && after.activeSources == [1] && after.audioSpeaker == None && !SpeakerShown(after)
  {
    var harris := Scheduled(Begin(PlayerState(0.0, [], None, 0), t1), t1, 1.0, Harris);
    var moore := Scheduled(Begin(harris, t2), t2, 1.0, Moore);
    assert moore.activeSources == [1];
    RemoveAbsent([1], 0);
  }

  /** The intended handler: the source leaves the list, and the signal is
      cleared only when no source is left playing. */
  function EndedIfIdle(s: PlayerState, source: SourceId): PlayerState
  {
    var rest := Remove(s.activeSources, source);
    s.(activeSources := rest, audioSpeaker := if rest == [] then None else s.audioSpeaker)
  }

  /** With the intended handler the signal shows whenever a source plays,
      through every transition. */
  lemma SpeakerShownPreserved(s: PlayerState, now: real, duration: real, speaker: Detective, source: SourceId)
    requires SpeakerShown(s)
    ensures SpeakerShown(Stopped(s)) && SpeakerShown(Begin(s, now))
    ensures SpeakerShown(Scheduled(s, now, duration, speaker))
    ensures SpeakerShown(EndedIfIdle(s, source))
    ensures EndedIfIdle(s, source).activeSources == [] ==> EndedIfIdle(s, source).audioSpeaker == None
  {
  }

  /** The intended handler agrees with the written one whenever only one
      stream's sources are playing and its counter matches the list. */
  lemma IdleAgreesWithCounter(s: PlayerState, source: SourceId, count: int)
    requires source in s.activeSources && NoDuplicates(s.activeSources)
    requires count == |s.activeSources| - 1
    ensures EndedIfIdle(s, source) == Ended(s, source, count)
  {
    var k :| 0 <= k < |s.activeSources| && s.activeSources[k] == source;
    RemoveAt(s.activeSources, source, k);
  }

  // ---------------------------------------------------------------------------
  // The engine as the component holds it

  /** The `activeCount` of one call of `playAudioStream`, shared by the
      `onended` handlers of that call's sources. */
  class StreamSession {
    const speaker: Detective
    var activeCount: int

    constructor (speaker: Detective)
      ensures this.speaker == speaker && activeCount == 0
    {
      this.speaker := speaker;
      activeCount := 0;
    }
  }

  class AudioOutput {
    var nextStartTime: real
    var activeSources: seq<SourceId>
    var audioSpeaker: Option<Detective>
    var sourcesCreated: nat

    function State(): PlayerState
      reads this
    {
      PlayerState(nextStartTime, activeSources, audioSpeaker, sourcesCreated)
    }

    constructor ()
      ensures State() == PlayerState(0.0, [], None, 0)
    {
      nextStartTime := 0.0;
      activeSources := [];
      audioSpeaker := None;
      sourcesCreated := 0;
    }

    /** `stopAudio`; each listed source is also told to stop, which the Web
        Audio API answers with its `ended` event later. */
    method StopAudio()
      modifies this
      ensures State() == Stopped(old(State()))
    {
      activeSources := [];
      nextStartTime := 0.0;
      audioSpeaker := None;
    }

    /** Scheduling one decoded buffer for `session` at device time `now`:
        the new source and the time it is started at. */
    method Enqueue(now: real, buffer: AudioBuffer, session: StreamSession) returns (source: SourceId, startAt: real)
      requires buffer.sampleRate > 0
      modifies this, session
      ensures source == old(sourcesCreated)
      ensures startAt == Max(now, old(nextStartTime))
      ensures startAt >= now && startAt >= old(nextStartTime)
      ensures State() == Scheduled(old(State()), now, Duration(buffer), session.speaker)
      ensures session.activeCount == old(session.activeCount) + 1
    {
      source := sourcesCreated;
      sourcesCreated := sourcesCreated + 1;
      startAt := Max(now, nextStartTime);
      nextStartTime := startAt + Duration(buffer);
      activeSources := activeSources + [source];
      session.activeCount := session.activeCount + 1;
      audioSpeaker := Some(session.speaker);
    }

    /** `playAudioStream(stream, speaker)` opened at device time `start`, the
        stream delivering `arrivals`; `starts` are the times the scheduled
        sources are started at, in order. */
    method PlayAudioStream(arrivals: seq<Arrival>, start: real, speaker: Detective) returns (session: StreamSession, starts: seq<real>)
      modifies this
      ensures fresh(session) && session.speaker == speaker
      ensures session.activeCount == |Jobs(arrivals)|
      ensures State() == PlayAll(Begin(old(State()), start), arrivals, speaker)
      ensures |starts| == |Jobs(arrivals)|
      ensures forall j :: 0 <= j < |starts| ==> starts[j] == StartOf(start + StartLead, Jobs(arrivals), j)
    {
      StopAudio();
      nextStartTime := start + StartLead;
      session := new StreamSession(speaker);
      starts := [];
      ghost var begun := State();
      for k := 0 to |arrivals|
        invariant State() == PlayAll(begun, arrivals[..k], speaker)
        invariant session.activeCount == |Jobs(arrivals[..k])|
        invariant session.speaker == speaker
        invariant |starts| == |Jobs(arrivals[..k])|
        invariant forall j :: 0 <= j < |starts| ==> starts[j] == StartOf(start + StartLead, Jobs(arrivals[..k]), j)
      {
        PlayAllPrefix(begun, arrivals, speaker, k);
        JobsPrefix(arrivals, k);
        PlayAllSchedules(begun, arrivals[..k], speaker);
        starts := PlayChunk(arrivals[k], session, start + StartLead, Jobs(arrivals[..k]), starts);
      }
      assert arrivals[..|arrivals|] == arrivals;
    }

    /** One iteration of the loop of `playAudioStream`: a chunk that decodes
        to a buffer is scheduled, and its start is added to `starts`, the
        starts so far of the schedule `jobs` from cursor `c0`. */
    method PlayChunk(a: Arrival, session: StreamSession, ghost c0: real, ghost jobs: seq<Job>, starts: seq<real>)
      returns (starts': seq<real>)
      requires nextStartTime == Cursor(c0, jobs)
      requires |starts| == |jobs| && forall j :: 0 <= j < |starts| ==> starts[j] == StartOf(c0, jobs, j)
      modifies this, session
      ensures State() == PlayStep(old(State()), a, session.speaker)
      ensures session.activeCount == old(session.activeCount) + |JobOf(a)|
      ensures |starts'| == |jobs + JobOf(a)|
      ensures forall j :: 0 <= j < |starts'| ==> starts'[j] == StartOf(c0, jobs + JobOf(a), j)
    {
      starts' := starts;
      var chunk := a.chunk;
      if chunk.Some? && |chunk.value| != 0 {
        var audioBuffer := DecodePCM(chunk.value, DefaultSampleRate, DefaultChannels);
        if audioBuffer.Some? {
          ghost var job := Job(a.now, Duration(audioBuffer.value));
          assert JobOf(a) == [job];
          var _, startAt := Enqueue(a.now, audioBuffer.value, session);
          StartsSnoc(c0, jobs, job, starts, startAt);
          starts' := starts + [startAt];
          return;
        }
      }
      assert JobOf(a) == [] && jobs + [] == jobs;
    }

    /** A source's `onended` handler as written. */
    method OnEnded(session: StreamSession, source: SourceId)
      modifies this, session
      ensures session.activeCount == old(session.activeCount) - 1
      ensures State() == Ended(old(State()), source, session.activeCount)
    {
      activeSources := Remove(activeSources, source);
      session.activeCount := session.activeCount - 1;
      if session.activeCount == 0 {
        audioSpeaker := None;
      }
    }

    /** The intended `onended` handler. */
    method OnEndedIfIdle(source: SourceId)
      modifies this
      ensures State() == EndedIfIdle(old(State()), source)
    {
      activeSources := Remove(activeSources, source);
      if activeSources == [] {
        audioSpeaker := None;
      }
    }
  }

  /** The start times of `jobs`, followed by the start of one more job. */
  lemma StartsSnoc(c0: real, jobs: seq<Job>, job: Job, starts: seq<real>, startAt: real)
    requires |starts| == |jobs| && forall j :: 0 <= j < |starts| ==> starts[j] == StartOf(c0, jobs, j)
    requires startAt == Max(job.now, Cursor(c0, jobs))
    ensures forall j :: 0 <= j < |starts| + 1 ==> (starts + [startAt])[j] == StartOf(c0, jobs + [job], j)
  {
    var js := jobs + [job];
    assert js[..|jobs|] == jobs;
    forall j | 0 <= j < |jobs| ensures StartOf(c0, js, j) == StartOf(c0, jobs, j) {
      assert js[..j] == jobs[..j];
    }
  }

  lemma JobsPrefix(arrivals: seq<Arrival>, k: nat)
    requires k < |arrivals|
    ensures Jobs(arrivals[..k + 1]) == Jobs(arrivals[..k]) + JobOf(arrivals[k])
  {
    assert arrivals[..k + 1][..k] == arrivals[..k];
  }
}
