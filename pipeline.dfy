/**
 * The part loop of `generateVideoTranscript`: each part of the file is read, sent for
 * transcription, and its reply parsed, shifted by the time before the part and appended
 * to the transcript; a part that fails leaves a "System" placeholder instead.
 *
 * What the outside world does is an input: the total duration of the file and, per
 * part, an `Outcome`. What the loop does to the outside world is an output: the trace
 * of status messages, reads of byte ranges and transcript updates, in order.
 */
module Pipeline {
  import opened Text
  import opened Types
  import opened TimeCodec
  import opened MimeTypes
  import opened Chunking
  import opened TranscriptParser

  /** What became of one part. */
  datatype Outcome =
    | EncodeFailed        // reading the slice as base64 rejected
    | RequestFailed       // the transcription request rejected or timed out
    | Reply(text: string) // the reply's text, "" when it has none

  /** One interaction of the loop with the world outside it. */
  datatype Event =
    | Status(message: string)                      // `onStatusUpdate`
    | Encode(start: nat, end: nat, mimeType: string) // bytes `[start, end)` read with this type
    | Publish(transcript: seq<Segment>)            // `onTranscriptUpdate`

  const InitialStatus: string := "PROCESSING_MEDIA"

  /** `formatTimeFromSeconds(NaN)`: every field is `NaN`. */
  const NaNClock: string := "NaN:NaN"

  /**
   * `formatTimeFromSeconds(acc + v)` for a parsed timestamp `v` and a part that starts
   * `acc` seconds in. A number parses back to the whole seconds of the sum; NaN stays NaN.
   */
  function ShiftValue(acc: real, v: TimeValue): (r: string)
    requires acc >= 0.0
    ensures v.Seconds? ==> IsCanonicalClock(r) && ParseTime(r) == Seconds((acc + v.n as real).Floor)
    ensures v.NaN? ==> ParseTime(r).NaN?
  {
    match v
    case NaN =>
      NaNClockIsNaN();
      NaNClock
    case Seconds(n) =>
      ParseFormat(acc + n as real);
      FormatTimeShape(acc + n as real);
      FormatTime(acc + n as real)
  }

  /** The absolute clock text of a timestamp read in a part that starts `acc` seconds in. */
  function ShiftTimestamp(acc: real, ts: string): (r: string)
    requires acc >= 0.0
    ensures ParseTime(ts).Seconds? ==>
      IsCanonicalClock(r) && ParseTime(r) == Seconds((acc + ParseTime(ts).n as real).Floor)
    ensures ParseTime(ts).NaN? ==> ParseTime(r).NaN?
  {
    ShiftValue(acc, ParseTime(ts))
  }

  lemma NaNClockIsNaN()
    ensures ParseTime(NaNClock).NaN?
  {
    assert ["NaN", "NaN"][1..] == ["NaN"];
    assert Join(["NaN", "NaN"], ':') == NaNClock;
    SplitJoin(["NaN", "NaN"], ':');
  }

  /** `segments.map(...)`: the segments of one reply with absolute timestamps; nothing else changes. */
  function Shifted(acc: real, segs: seq<Segment>): (r: seq<Segment>)
    requires acc >= 0.0
    ensures |r| == |segs|
    ensures forall k :: 0 <= k < |r| ==> r[k].speaker == segs[k].speaker && r[k].text == segs[k].text
  {
    seq(|segs|, k requires 0 <= k < |segs| => segs[k].(timestamp := ShiftTimestamp(acc, segs[k].timestamp)))
  }

  /** The segment that stands in for part `i` when it fails. */
  function Placeholder(i: nat, acc: real): Segment
    requires acc >= 0.0
  {
    Segment(FormatTime(acc), "System", "[Error processing segment " + NatToString(i + 1) + ". Skipped.]")
  }

  /**
   * What part `i`, starting `acc` seconds in, appends to the transcript: the shifted
   * segments of a reply with text, nothing for a reply without text, and one
   * placeholder when reading the part or the request failed.
   */
  function Added(i: nat, acc: real, outcome: Outcome): seq<Segment>
    requires acc >= 0.0
  {
    match outcome
    case Reply(text) => if text == "" then [] else Shifted(acc, ParseText(text))
    case _ => [Placeholder(i, acc)]
  }

  /** Whether the part calls `onTranscriptUpdate`: every outcome but a reply without text. */
  predicate Publishes(outcome: Outcome)
  {
    !(outcome.Reply? && outcome.text == "")
  }

  /** What each part of the file appends, given the duration and every part's outcome. */
  function Additions(size: nat, total: real, outcomes: seq<Outcome>): (adds: seq<seq<Segment>>)
    requires |outcomes| == ChunkCount(size)
    ensures |adds| == |outcomes|
  {
    seq(|outcomes|, i requires 0 <= i < |outcomes| => Added(i, Offset(size, total, i), outcomes[i]))
  }

  /** The transcript built from the parts' additions, in order. */
  function Accumulated(adds: seq<seq<Segment>>): seq<Segment>
  {
    if adds == [] then [] else Accumulated(adds[..|adds| - 1]) + adds[|adds| - 1]
  }

  /** `Part <i + 1> of <n>`, as the status messages number the parts. */
  function PartLabel(i: nat, n: nat): string
  {
    "Part " + NatToString(i + 1) + " of " + NatToString(n)
  }

  function ProcessingMessage(i: nat, n: nat): string { "Processing " + PartLabel(i, n) }
  function UploadingMessage(i: nat, n: nat): string { "Uploading " + PartLabel(i, n) + "..." }
  function AnalyzingMessage(i: nat, n: nat): string { "Analyzing " + PartLabel(i, n) + "..." }

  /** The messages before part `i` is read: progress, and the upload notice for a part above the inline limit. */
  function Announce(size: nat, i: nat): seq<Event>
    requires i < ChunkCount(size)
  {
    [Status(ProcessingMessage(i, ChunkCount(size)))] +
    (if IsUpload(size, i) then [Status(UploadingMessage(i, ChunkCount(size)))] else [])
  }

  /**
   * The events after part `i` is read, given the transcript after it: the analysis
   * message once the read succeeded, and the new transcript unless the reply was empty.
   */
  function Settle(size: nat, i: nat, outcome: Outcome, after: seq<Segment>): seq<Event>
    requires i < ChunkCount(size)
  {
    match outcome
    case EncodeFailed => [Publish(after)]
    case RequestFailed => [Status(AnalyzingMessage(i, ChunkCount(size))), Publish(after)]
    case Reply(text) =>
      [Status(AnalyzingMessage(i, ChunkCount(size)))] + (if text == "" then [] else [Publish(after)])
  }

  /** The events of part `i`: its announcement, the read of its bytes, and what followed. */
  function ChunkEvents(mimeType: string, size: nat, i: nat, outcome: Outcome, after: seq<Segment>): seq<Event>
    requires i < ChunkCount(size)
  {
    Announce(size, i) + [Encode(ChunkStart(i), ChunkEnd(size, i), mimeType)] + Settle(size, i, outcome, after)
  }

  /** The events of the first `k` parts, in order, given what each part appends. */
  function EventsOf(mimeType: string, size: nat, outcomes: seq<Outcome>, adds: seq<seq<Segment>>, k: nat): seq<Event>
    requires k <= ChunkCount(size) && k <= |outcomes| && k <= |adds|
  {
    if k == 0 then []
    else EventsOf(mimeType, size, outcomes, adds, k - 1) + ChunkEvents(mimeType, size, k - 1, outcomes[k - 1], Accumulated(adds[..k]))
  }

  /**
   * `generateVideoTranscript` once the total duration is known: for each part in turn,
   * announce it, read its bytes, act on its outcome, and move the time cursor on by its
   * share of the duration. Returns the transcript and the events it caused.
   */
  method GenerateTranscript(src: MediaSource, size: nat, total: real, outcomes: seq<Outcome>)
    returns (transcript: seq<Segment>, events: seq<Event>)
    requires |outcomes| == ChunkCount(size)
    ensures transcript == Accumulated(Additions(size, total, outcomes))
    ensures events == [Status(InitialStatus)] +
                      EventsOf(GetMimeType(src), size, outcomes, Additions(size, total, outcomes), |outcomes|)
  {
    events := [Status(InitialStatus)];
    ghost var adds := Additions(size, total, outcomes);
    var mimeType := GetMimeType(src);
    transcript, events := ProcessParts(size, total, outcomes, events, adds, mimeType);
    TakeAll(adds);
  }

  /**
   * The part loop of `generateVideoTranscript`, from an empty transcript, the time cursor
   * at 0 and the events `events0` so far. The file's MIME type depends on the file alone,
   * so it is resolved once and passed in; the ghost `adds` names each part's addition.
   */
  method ProcessParts(size: nat, total: real, outcomes: seq<Outcome>, events0: seq<Event>,
                      ghost adds: seq<seq<Segment>>, mimeType: string)
    returns (transcript: seq<Segment>, events: seq<Event>)
    requires |outcomes| == ChunkCount(size) && |adds| == |outcomes|
    requires forall k :: 0 <= k < |adds| ==> adds[k] == Added(k, Offset(size, total, k), outcomes[k])
    ensures transcript == Accumulated(adds[..|adds|])
    ensures events == events0 + EventsOf(mimeType, size, outcomes, adds, |adds|)
  {
    events := events0;
    var chunksCount := (size + ChunkSize - 1) / ChunkSize;
    transcript := [];
    var accumulatedTime := 0.0;
    var i := 0;
    while i < chunksCount
      invariant chunksCount == ChunkCount(size)
      invariant 0 <= i <= chunksCount
      invariant accumulatedTime == Offset(size, total, i)
      invariant transcript == Accumulated(adds[..i])
      invariant events == events0 + EventsOf(mimeType, size, outcomes, adds, i)
    {
      var transcript', events', accumulatedTime' :=
        ProcessPart(mimeType, size, chunksCount, total, i, accumulatedTime, outcomes[i], transcript, events);
      TurnInvariant(mimeType, size, total, outcomes, adds, i, events0, transcript, events, accumulatedTime, transcript', events');
      transcript, events, accumulatedTime := transcript', events', accumulatedTime';
      i := i + 1;
    }
  }

  /**
   * One turn of the part loop, for part `i` of `n` starting `acc` seconds in: announce
   * the part, read its bytes, settle its outcome, and move the time cursor on.
   */
  method ProcessPart(mimeType: string, size: nat, n: nat, total: real, i: nat, acc: real, outcome: Outcome,
                     transcript: seq<Segment>, events: seq<Event>)
    returns (transcript': seq<Segment>, events': seq<Event>, acc': real)
    requires n == ChunkCount(size) && i < n && acc >= 0.0
    ensures transcript' == transcript + Added(i, acc, outcome)
    ensures events' == events + ChunkEvents(mimeType, size, i, outcome, transcript')
    ensures acc' == acc + ChunkDuration(size, total, i)
  {
    var length;
    events', length := ReadPart(mimeType, size, n, i, events);
    ghost var read := Announce(size, i) + [Encode(ChunkStart(i), ChunkEnd(size, i), mimeType)];
    transcript', events' := SettlePart(size, n, i, acc, outcome, transcript, events');
    EventsJoin(events, read, Settle(size, i, outcome, transcript'));
    var chunkDuration := Share(size, total, length);
    acc' := acc + chunkDuration;
  }

  /**
   * The start of a turn for part `i` of `n`: the progress message, the slice
   * `[i * CHUNK_SIZE, min(start + CHUNK_SIZE, size))`, the upload notice for a slice
   * above the inline limit, and the read of the slice with the file's MIME type `mimeType`.
   * Returns the events so far and the slice's byte count.
   */
  method ReadPart(mimeType: string, size: nat, n: nat, i: nat, events: seq<Event>)
    returns (events': seq<Event>, length: nat)
    requires n == ChunkCount(size) && i < n
    ensures events' == events + (Announce(size, i) + [Encode(ChunkStart(i), ChunkEnd(size, i), mimeType)])
    ensures length == ChunkLength(size, i)
  {
    events' := events + [Status(ProcessingMessage(i, n))];
    var start := i * ChunkSize;
    var end := if start + ChunkSize < size then start + ChunkSize else size;
    assert start == ChunkStart(i) && end == ChunkEnd(size, i);
    length := end - start;
    if length > InlineDataLimit {
      events' := events' + [Status(UploadingMessage(i, n))];
    }
    assert events' == events + Announce(size, i);
    events' := events' + [Encode(start, end, mimeType)];
  }

  /**
   * The `try` block and its `catch` for part `i` of `n`: a failed read or request leaves
   * a placeholder; a reply with text is parsed, shifted and appended.
   */
  method SettlePart(size: nat, n: nat, i: nat, acc: real, outcome: Outcome,
                    transcript: seq<Segment>, events: seq<Event>)
    returns (transcript': seq<Segment>, events': seq<Event>)
    requires n == ChunkCount(size) && i < n && acc >= 0.0
    ensures transcript' == transcript + Added(i, acc, outcome)
    ensures events' == events + Settle(size, i, outcome, transcript')
  {
    match outcome {
      case EncodeFailed =>
        transcript', events' := RecordFailure(i, acc, transcript, events);
        assert Added(i, acc, outcome) == [Placeholder(i, acc)];
      case RequestFailed =>
        var analyzing := [Status(AnalyzingMessage(i, n))];
        transcript', events' := RecordFailure(i, acc, transcript, events + analyzing);
        EventsJoin(events, analyzing, [Publish(transcript')]);
        assert Added(i, acc, outcome) == [Placeholder(i, acc)];
      case Reply(text) =>
        var analyzing := [Status(AnalyzingMessage(i, n))];
        events' := events + analyzing;
        transcript' := transcript;
        if text != "" {
          transcript', events' := AppendReply(acc, text, transcript, events');
          EventsJoin(events, analyzing, [Publish(transcript')]);
          assert Added(i, acc, outcome) == Shifted(acc, ParseText(text));
        } else {
          assert transcript' == transcript + [];
          assert Added(i, acc, outcome) == [];
        }
    }
  }

  /** The `catch` block: push the placeholder for part `i` and publish the transcript. */
  method RecordFailure(i: nat, acc: real, transcript: seq<Segment>, events: seq<Event>)
    returns (transcript': seq<Segment>, events': seq<Event>)
    requires acc >= 0.0
    ensures transcript' == transcript + [Placeholder(i, acc)]
    ensures events' == events + [Publish(transcript')]
  {
    transcript' := transcript + [Placeholder(i, acc)];
    events' := events + [Publish(transcript')];
  }

  /** A reply with text: parse it, shift its timestamps by `acc`, append, publish. */
  method AppendReply(acc: real, text: string, transcript: seq<Segment>, events: seq<Event>)
    returns (transcript': seq<Segment>, events': seq<Event>)
    requires acc >= 0.0
    ensures transcript' == transcript + Shifted(acc, ParseText(text))
    ensures events' == events + [Publish(transcript')]
  {
    var segments := ParseTranscript(text);
    transcript' := transcript + Shifted(acc, segments);
    events' := events + [Publish(transcript')];
  }

  /** A turn of the loop takes the transcript, the events and the time cursor from part `i` to part `i + 1`. */
  lemma TurnInvariant(mimeType: string, size: nat, total: real, outcomes: seq<Outcome>, adds: seq<seq<Segment>>, i: nat,
                      events0: seq<Event>, transcript: seq<Segment>, events: seq<Event>, acc: real,
                      transcript': seq<Segment>, events': seq<Event>)
    requires |outcomes| == ChunkCount(size) && |adds| == |outcomes| && i < |outcomes|
    requires adds[i] == Added(i, Offset(size, total, i), outcomes[i])
    requires transcript == Accumulated(adds[..i]) && acc == Offset(size, total, i)
    requires events == events0 + EventsOf(mimeType, size, outcomes, adds, i)
    requires transcript' == transcript + Added(i, acc, outcomes[i])
    requires events' == events + ChunkEvents(mimeType, size, i, outcomes[i], transcript')
    ensures transcript' == Accumulated(adds[..i + 1])
    ensures events' == events0 + EventsOf(mimeType, size, outcomes, adds, i + 1)
    ensures acc + ChunkDuration(size, total, i) == Offset(size, total, i + 1)
  {
    AccumulatedStep(adds, i);
    EventsJoin(events0, EventsOf(mimeType, size, outcomes, adds, i),
               ChunkEvents(mimeType, size, i, outcomes[i], transcript'));
  }

  /** One more part appends its own addition to the transcript. */
  lemma AccumulatedStep(adds: seq<seq<Segment>>, i: nat)
    requires i < |adds|
    ensures Accumulated(adds[..i + 1]) == Accumulated(adds[..i]) + adds[i]
  {
    assert adds[..i + 1][..i] == adds[..i];
  }

  lemma TakeAll(adds: seq<seq<Segment>>)
    ensures adds[..|adds|] == adds
  {
  }

  lemma EventsJoin(e: seq<Event>, a: seq<Event>, b: seq<Event>)
    ensures e + a + b == e + (a + b)
  {
  }

}
