/**
 * What the part loop promises: the transcript only grows, each part adds what its
 * outcome calls for with timestamps no earlier than the part's start, the last
 * transcript handed to `onTranscriptUpdate` is always the current one, and the reads
 * cover the file's parts in order with one MIME type.
 *
 * The loop-wide lemmas hold for any additions a run might produce; the lemmas about
 * one part say what the additions of `generateVideoTranscript` are.
 */
module PipelineProperties {
  import opened Text
  import opened Types
  import opened TimeCodec
  import opened MimeTypes
  import opened Chunking
  import opened TranscriptParser
  import opened Pipeline

  // ---------------------------------------------------------------------------
  // One part

  /**
   * A failed read or request adds exactly one segment: a "System" entry stamped with
   * the part's start time, in whole seconds, numbering the part from 1.
   */
  lemma FailureAdds(i: nat, acc: real, outcome: Outcome)
    requires acc >= 0.0 && !outcome.Reply?
    ensures var a := Added(i, acc, outcome);
      |a| == 1 && a[0].speaker == "System" &&
      IsCanonicalClock(a[0].timestamp) && ParseTime(a[0].timestamp) == Seconds(acc.Floor) &&
      a[0].text == "[Error processing segment " + NatToString(i + 1) + ". Skipped.]"
  {
    ParseFormat(acc);
    FormatTimeShape(acc);
  }

  /**
   * A reply adds nothing when its text is empty; otherwise it adds one segment per
   * parsed segment, in order, with the same speaker and text, and a timestamp that
   * reads back as the parsed time plus the part's start, never before that start.
   */
  lemma ReplyAdds(i: nat, acc: real, text: string)
    requires acc >= 0.0
    ensures text == "" ==> Added(i, acc, Reply(text)) == []
    ensures text != "" ==>
      var a, p := Added(i, acc, Reply(text)), ParseText(text);
      |a| == |p| &&
      forall k :: 0 <= k < |p| ==>
        a[k].speaker == p[k].speaker && a[k].text == p[k].text &&
        ParseTime(p[k].timestamp).Seconds? && IsCanonicalClock(a[k].timestamp) &&
        ParseTime(a[k].timestamp) == Seconds((acc + ParseTime(p[k].timestamp).n as real).Floor) &&
        (acc + ParseTime(p[k].timestamp).n as real).Floor >= acc.Floor
  {
    if text != "" {
      var p := ParseText(text);
      var a := Shifted(acc, p);
      ParsedStampsParse(text);
      forall k | 0 <= k < |p|
        ensures IsCanonicalClock(a[k].timestamp)
        ensures ParseTime(a[k].timestamp) == Seconds((acc + ParseTime(p[k].timestamp).n as real).Floor)
        ensures (acc + ParseTime(p[k].timestamp).n as real).Floor >= acc.Floor
      {
        assert a[k].timestamp == ShiftTimestamp(acc, p[k].timestamp);
        FloorMonotone(acc, acc + ParseTime(p[k].timestamp).n as real);
      }
    }
  }

  lemma FloorMonotone(x: real, y: real)
    requires x <= y
    ensures x.Floor <= y.Floor
  {
  }

  /** A part that publishes nothing adds nothing; a failed part adds one segment. */
  lemma SilentAddsNothing(i: nat, acc: real, outcome: Outcome)
    requires acc >= 0.0
    ensures !Publishes(outcome) ==> Added(i, acc, outcome) == []
    ensures !outcome.Reply? ==> |Added(i, acc, outcome)| == 1
  {
    if !outcome.Reply? {
      FailureAdds(i, acc, outcome);
    }
  }

  /**
   * Every segment that part `k` of a run adds reads back as a whole number of seconds
   * no earlier than the part's start, `accumulatedTime`, which never decreases from
   * one part to the next (`OffsetMonotone`).
   */
  lemma PartStampsFromOffset(size: nat, total: real, outcomes: seq<Outcome>, k: nat)
    requires |outcomes| == ChunkCount(size) && k < |outcomes|
    ensures var a := Additions(size, total, outcomes)[k];
      forall m :: 0 <= m < |a| ==>
        ParseTime(a[m].timestamp).Seconds? && ParseTime(a[m].timestamp).n >= Offset(size, total, k).Floor
  {
    var acc := Offset(size, total, k);
    var a := Additions(size, total, outcomes)[k];
    assert a == Added(k, acc, outcomes[k]);
    match outcomes[k]
    case Reply(text) =>
      ReplyAdds(k, acc, text);
    case _ =>
      FailureAdds(k, acc, outcomes[k]);
  }

  // ---------------------------------------------------------------------------
  // The whole loop, for any additions

  /** The additions of `a + b` build the transcript of `a`, then that of `b`. */
  lemma {:induction false} AccumulatedAppend(a: seq<seq<Segment>>, b: seq<seq<Segment>>)
    ensures Accumulated(a + b) == Accumulated(a) + Accumulated(b)
    decreases |b|
  {
    if b == [] {
      assert a + b == a;
    } else {
      var init := b[..|b| - 1];
      assert (a + b)[..|a + b| - 1] == a + init;
      AccumulatedAppend(a, init);
    }
  }

  /**
   * The transcript is append-only: after `k` parts it is the transcript after `j <= k`
   * parts followed by what parts `j` to `k - 1` added, so earlier segments never change.
   */
  lemma AppendOnly(adds: seq<seq<Segment>>, j: nat, k: nat)
    requires j <= k <= |adds|
    ensures Accumulated(adds[..k]) == Accumulated(adds[..j]) + Accumulated(adds[j..k])
    ensures Accumulated(adds[..j]) <= Accumulated(adds[..k])
  {
    assert adds[..k] == adds[..j] + adds[j..k];
    AccumulatedAppend(adds[..j], adds[j..k]);
  }

  /** The transcript last handed to `onTranscriptUpdate`, or none yet. */
  function Published(events: seq<Event>): (t: seq<Segment>)
    ensures (forall i :: 0 <= i < |events| ==> !events[i].Publish?) ==> t == []
  {
    if events == [] then []
    else
      match events[|events| - 1]
      case Publish(t) => t
      case _ => Published(events[..|events| - 1])
  }

  /** Events that publish nothing leave the published transcript as it was. */
  lemma {:induction false} PublishedQuiet(a: seq<Event>, b: seq<Event>)
    requires forall i :: 0 <= i < |b| ==> !b[i].Publish?
    ensures Published(a + b) == Published(a)
    decreases |b|
  {
    if b == [] {
      assert a + b == a;
    } else {
      var init := b[..|b| - 1];
      assert (a + b)[..|a + b| - 1] == a + init;
      PublishedQuiet(a, init);
    }
  }

  /** After a part, the published transcript is the part's transcript, unless its reply was empty. */
  lemma PartPublishes(mimeType: string, size: nat, i: nat, outcome: Outcome, after: seq<Segment>, e: seq<Event>)
    requires i < ChunkCount(size)
    ensures Published(e + ChunkEvents(mimeType, size, i, outcome, after)) ==
            if Publishes(outcome) then after else Published(e)
  {
    var events := ChunkEvents(mimeType, size, i, outcome, after);
    if !Publishes(outcome) {
      PublishedQuiet(e, events);
    } else {
      assert events[|events| - 1] == Publish(after);
      assert (e + events)[|e + events| - 1] == Publish(after);
    }
  }

  /**
   * `onTranscriptUpdate` is always given the transcript as it stands: after any number
   * of parts, the last transcript published is the current one (empty when nothing
   * was), provided a part that publishes nothing adds nothing (`SilentAddsNothing`).
   */
  lemma {:induction false} PublishedIsCurrent(mimeType: string, size: nat, outcomes: seq<Outcome>, adds: seq<seq<Segment>>, k: nat)
    requires k <= ChunkCount(size) && k <= |outcomes| && k <= |adds|
    requires forall i :: 0 <= i < k && !Publishes(outcomes[i]) ==> adds[i] == []
    ensures Published([Status(InitialStatus)] + EventsOf(mimeType, size, outcomes, adds, k)) == Accumulated(adds[..k])
  {
    var start := [Status(InitialStatus)];
    if k == 0 {
      PublishedQuiet([], start);
      assert [] + start == start;
      assert [Status(InitialStatus)] + [] == start;
    } else {
      PublishedIsCurrent(mimeType, size, outcomes, adds, k - 1);
      var prior := start + EventsOf(mimeType, size, outcomes, adds, k - 1);
      var after := Accumulated(adds[..k]);
      EventsJoin(start, EventsOf(mimeType, size, outcomes, adds, k - 1), ChunkEvents(mimeType, size, k - 1, outcomes[k - 1], after));
      PartPublishes(mimeType, size, k - 1, outcomes[k - 1], after, prior);
      AccumulatedStep(adds, k - 1);
    }
  }

  /** The reads of the file, in order. */
  function Reads(events: seq<Event>): (r: seq<Event>)
    ensures |r| <= |events|
    ensures forall i :: 0 <= i < |r| ==> r[i].Encode?
  {
    if events == [] then []
    else
      var last := events[|events| - 1];
      Reads(events[..|events| - 1]) + if last.Encode? then [last] else []
  }

  lemma {:induction false} ReadsAppend(a: seq<Event>, b: seq<Event>)
    ensures Reads(a + b) == Reads(a) + Reads(b)
    decreases |b|
  {
    if b == [] {
      assert a + b == a;
    } else {
      var init := b[..|b| - 1];
      assert (a + b)[..|a + b| - 1] == a + init;
      ReadsAppend(a, init);
    }
  }

  lemma {:induction false} ReadsNone(b: seq<Event>)
    requires forall i :: 0 <= i < |b| ==> !b[i].Encode?
    ensures Reads(b) == []
    decreases |b|
  {
    if b != [] {
      ReadsNone(b[..|b| - 1]);
    }
  }

  /** A part reads exactly its own byte range, once. */
  lemma PartReads(mimeType: string, size: nat, i: nat, outcome: Outcome, after: seq<Segment>)
    requires i < ChunkCount(size)
    ensures Reads(ChunkEvents(mimeType, size, i, outcome, after)) == [Encode(ChunkStart(i), ChunkEnd(size, i), mimeType)]
  {
    var announce, read, settle := Announce(size, i), [Encode(ChunkStart(i), ChunkEnd(size, i), mimeType)], Settle(size, i, outcome, after);
    ReadsNone(announce);
    ReadsNone(settle);
    ReadsAppend(announce, read);
    ReadsAppend(announce + read, settle);
    assert Reads(read) == Reads([]) + read;
  }

  /** The reads the loop is meant to make in its first `k` parts: each part's range, in order, with one type. */
  function ReadPlan(mimeType: string, size: nat, k: nat): (r: seq<Event>)
    ensures |r| == k
  {
    if k == 0 then [] else ReadPlan(mimeType, size, k - 1) + [Encode(ChunkStart(k - 1), ChunkEnd(size, k - 1), mimeType)]
  }

  /** Entry `i` of the plan reads part `i`'s range. */
  lemma {:induction false} ReadPlanRanges(mimeType: string, size: nat, k: nat)
    ensures forall i :: 0 <= i < k ==> ReadPlan(mimeType, size, k)[i] == Encode(ChunkStart(i), ChunkEnd(size, i), mimeType)
  {
    if k > 0 {
      ReadPlanRanges(mimeType, size, k - 1);
    }
  }

  /**
   * After `k` parts the file has been read as planned: the first `k` chunk ranges, in
   * order, each once; with `ChunksPartition` these cover the file once all parts are done.
   */
  lemma {:induction false} ReadsAreChunks(mimeType: string, size: nat, outcomes: seq<Outcome>, adds: seq<seq<Segment>>, k: nat)
    requires k <= ChunkCount(size) && k <= |outcomes| && k <= |adds|
    ensures Reads(EventsOf(mimeType, size, outcomes, adds, k)) == ReadPlan(mimeType, size, k)
  {
    if k > 0 {
      ReadsAreChunks(mimeType, size, outcomes, adds, k - 1);
      var prior := EventsOf(mimeType, size, outcomes, adds, k - 1);
      var part := ChunkEvents(mimeType, size, k - 1, outcomes[k - 1], Accumulated(adds[..k]));
      ReadsAppend(prior, part);
      PartReads(mimeType, size, k - 1, outcomes[k - 1], Accumulated(adds[..k]));
    }
  }

  // ---------------------------------------------------------------------------
  // The run of `generateVideoTranscript`

  /**
   * For the run itself: the returned transcript is what the last `onTranscriptUpdate`
   * showed, and the reads are every part's range, in order, with the file's MIME type.
   */
  lemma RunPublishesAndReads(src: MediaSource, size: nat, total: real, outcomes: seq<Outcome>)
    requires |outcomes| == ChunkCount(size)
    ensures var adds, mimeType := Additions(size, total, outcomes), GetMimeType(src);
      var events := EventsOf(mimeType, size, outcomes, adds, |outcomes|);
      Published([Status(InitialStatus)] + events) == Accumulated(adds) &&
      Reads(events) == ReadPlan(mimeType, size, |outcomes|)
  {
    var adds, mimeType := Additions(size, total, outcomes), GetMimeType(src);
    forall i | 0 <= i < |outcomes| && !Publishes(outcomes[i])
      ensures adds[i] == []
    {
      SilentAddsNothing(i, Offset(size, total, i), outcomes[i]);
    }
    PublishedIsCurrent(mimeType, size, outcomes, adds, |outcomes|);
    ReadsAreChunks(mimeType, size, outcomes, adds, |outcomes|);
    TakeAll(adds);
  }
  // ---------------------------------------------------------------------------
  // The transcript is not sorted

  /**
   * A reply's segments keep the reply's own line order, so a reply whose second line is
   * stamped earlier than its first adds stamps that go back in time: the transcript is
   * ordered by part, not by timestamp.
   */
  lemma RepliesKeepLineOrder(i: nat, acc: real, ts1: string, a: char, x: char, ts2: string, b: char, y: char)
    requires acc >= 0.0
    requires IsShortStamp(ts1) && !IsWhitespace(a) && !IsWhitespace(x)
    requires a != ':' && !IsLineTerminator(a) && !IsLineTerminator(x)
    requires IsShortStamp(ts2) && !IsWhitespace(b) && !IsWhitespace(y)
    requires b != ':' && !IsLineTerminator(b) && !IsLineTerminator(y)
    requires ParseTime(ts1).Seconds? && ParseTime(ts2).Seconds? && ParseTime(ts1).n > ParseTime(ts2).n
    ensures var added := Added(i, acc, Reply(SimpleLine(ts1, a, x) + ['\n'] + SimpleLine(ts2, b, y)));
      |added| == 2 && ParseTime(added[0].timestamp).Seconds? && ParseTime(added[1].timestamp).Seconds? &&
      ParseTime(added[0].timestamp).n > ParseTime(added[1].timestamp).n
  {
    var text := SimpleLine(ts1, a, x) + ['\n'] + SimpleLine(ts2, b, y);
    TwoHeaderReply(ts1, a, x, ts2, b, y);
    var p := ParseText(text);
    assert text != "";
    ReplyAdds(i, acc, text);
    var v1, v2 := acc + ParseTime(ts1).n as real, acc + ParseTime(ts2).n as real;
    assert v1 >= v2 + 1.0;
    FloorMonotone(v2 + 1.0, v1);
  }

  /** `00:10` reads later than `00:05`, so a reply listing them in that order goes back in time. */
  lemma BackwardsStamps(ts1: string, ts2: string)
    requires ts1 == "00:10" && ts2 == "00:05"
    ensures IsShortStamp(ts1) && IsShortStamp(ts2)
    ensures ParseTime(ts1) == Seconds(10) && ParseTime(ts2) == Seconds(5)
  {
    var zero, ten, five := "00", "10", "05";
    assert ts1 == zero + ":" + ten && ts2 == zero + ":" + five;
    TwoDigitValue(zero);
    TwoDigitValue(ten);
    TwoDigitValue(five);
    ParseTimeTwoFields(zero, ten);
    ParseTimeTwoFields(zero, five);
  }

  /** The reply `[00:10] A: x` then `[00:05] B: y` adds a segment stamped later than the one after it. */
  lemma BackwardsReply(i: nat, acc: real, ts1: string, ts2: string)
    requires acc >= 0.0 && ts1 == "00:10" && ts2 == "00:05"
    ensures var added := Added(i, acc, Reply(SimpleLine(ts1, 'A', 'x') + ['\n'] + SimpleLine(ts2, 'B', 'y')));
      |added| == 2 && ParseTime(added[0].timestamp).Seconds? && ParseTime(added[1].timestamp).Seconds? &&
      ParseTime(added[0].timestamp).n > ParseTime(added[1].timestamp).n
  {
    BackwardsStamps(ts1, ts2);
    RepliesKeepLineOrder(i, acc, ts1, 'A', 'x', ts2, 'B', 'y');
  }
}
