/** The prefetch in `processTurn` of `App.tsx`: the first chunk of a turn's
    audio is awaited before the turn's text is shown, and playback is then
    handed a stream that replays that chunk and resumes the original one. */
module Turn {
  import opened Common

  /** What one `iterator.next()` gives: a chunk, the end, or a thrown error. */
  datatype Next = Yield(value: seq<byte>) | Done | Threw

  /** The iterator of `streamDetectiveAudio`: it yields `chunks` in order and
      then either finishes or throws, as `throws` says; after the end it keeps
      answering the same way. */
  class ChunkIterator {
    const chunks: seq<seq<byte>>
    const throws: bool
    var pos: nat

    constructor (chunks: seq<seq<byte>>, throws: bool)
      ensures this.chunks == chunks && this.throws == throws && pos == 0
    {
      this.chunks := chunks;
      this.throws := throws;
      pos := 0;
    }

    predicate Valid()
      reads this
    {
      pos <= |chunks|
    }

    /** The end of the stream as `next()` reports it. */
    function End(): Next
    {
      if throws then Threw else Done
    }

    method NextChunk() returns (r: Next)
      requires Valid()
      modifies this
      ensures Valid()
      ensures old(pos) < |chunks| ==> r == Yield(chunks[old(pos)]) && pos == old(pos) + 1
      ensures old(pos) == |chunks| ==> r == End() && pos == old(pos)
    {
      if pos < |chunks| {
        r := Yield(chunks[pos]);
        pos := pos + 1;
      } else {
        r := End();
      }
    }
  }

  /** What `processTurn` hands to `playAudioStream`: nothing when the
      prefetched result is the end or an error, and otherwise the chunks the
      `streamResume` generator yields, with how it ends. */
  datatype Resumed = NotPlayed | Resumed(chunks: seq<seq<byte>>, end: Next)

  /** The prefetch and the resumed stream, drained in order. */
  method PrefetchAndResume(it: ChunkIterator) returns (r: Resumed)
    requires it.Valid() && it.pos == 0
    modifies it
    ensures |it.chunks| == 0 <==> r == NotPlayed
    ensures r.Resumed? ==> r.chunks == it.chunks && r.end == it.End()
  {
    var firstChunk := it.NextChunk();
    if !firstChunk.Yield? {
      return NotPlayed;
    }
    var yielded := [firstChunk.value];
    var result := it.NextChunk();
    while result.Yield?
      invariant it.Valid() && 1 <= it.pos
      invariant yielded == it.chunks[..it.pos - (if result.Yield? then 1 else 0)]
      invariant result.Yield? ==> result.value == it.chunks[it.pos - 1]
      invariant !result.Yield? ==> it.pos == |it.chunks| && result == it.End()
      decreases |it.chunks| - it.pos, result.Yield?
    {
      yielded := yielded + [result.value];
      result := it.NextChunk();
    }
    assert it.chunks[..|it.chunks|] == it.chunks;
    r := Resumed(yielded, result);
  }
}
