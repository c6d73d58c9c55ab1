/**
 * `parseTranscript`: turns the model's text, one `[ts] Speaker: Text` entry per line,
 * into segments. A non-blank line that is not a header continues the previous segment.
 */
module TranscriptParser {
  import opened Wrappers
  import opened Text
  import opened Types
  import opened TimeCodec

  // ---------------------------------------------------------------------------
  // The header pattern  ^\[(\d{1,2}:\d{2}|\d{1,2}:\d{2}:\d{2})\]\s*(.*?):\s*(.*)$

  /** The three capture groups of a matched header line, before trimming. */
  datatype Header = Header(timestamp: string, speaker: string, text: string)

  /** `\d{1,2}:\d{2}` as a whole string: one or two digits, a colon, two digits. */
  predicate IsShortStamp(ts: string)
  {
    4 <= |ts| <= 5 && ts[|ts| - 3] == ':' &&
    forall i :: 0 <= i < |ts| && i != |ts| - 3 ==> IsDigit(ts[i])
  }

  /** `\d{1,2}:\d{2}|\d{1,2}:\d{2}:\d{2}` as a whole string: a short stamp, optionally followed by a colon and two digits. */
  predicate IsStampPattern(ts: string)
  {
    IsShortStamp(ts) ||
    (7 <= |ts| <= 8 && ts[|ts| - 6] == ':' && ts[|ts| - 3] == ':' &&
     forall i :: 0 <= i < |ts| && i != |ts| - 6 && i != |ts| - 3 ==> IsDigit(ts[i]))
  }

  /** The position of the first `c` in `s`, or `|s|` when there is none. */
  function FirstIndex(s: string, c: char): (k: nat)
    ensures k <= |s| && (forall i :: 0 <= i < k ==> s[i] != c) && (k < |s| ==> s[k] == c)
  {
    if s == [] || s[0] == c then 0
    else
      1 + FirstIndex(s[1..], c)
  }

  /**
   * Whether `\s*(.*)$` matches `t` from position `j`: after the white space there, no line
   * terminator is left before the end.
   */
  predicate RestMatches(t: string, j: nat)
    requires j <= |t|
  {
    LineEnd(t, SkipWhite(t, j)) == |t|
  }

  /** The position of the first line terminator at or after `j`, or `|t|`: where `.*` must stop. */
  function LineEnd(t: string, j: nat): (e: nat)
    requires j <= |t|
    ensures j <= e <= |t| && (e < |t| ==> IsLineTerminator(t[e]))
    ensures forall i :: j <= i < e ==> !IsLineTerminator(t[i])
    decreases |t| - j
  {
    if j == |t| || IsLineTerminator(t[j]) then j else LineEnd(t, j + 1)
  }

  /** Whether the lazy speaker group may end at `i`: a colon after which the pattern's rest matches. */
  predicate SpeakerStop(t: string, i: nat)
    requires i < |t|
  {
    t[i] == ':' && RestMatches(t, i + 1)
  }

  /**
   * The lazy `(.*?):` starting at `j`: the first colon before the next line terminator
   * after which the rest of the pattern matches.
   */
  function SpeakerEnd(t: string, j: nat): (q: Option<nat>)
    requires j <= |t|
    ensures q.Some? ==>
      j <= q.value < LineEnd(t, j) && SpeakerStop(t, q.value) &&
      (forall i :: j <= i < q.value ==> !SpeakerStop(t, i))
    ensures q.None? ==> forall i :: j <= i < LineEnd(t, j) ==> !SpeakerStop(t, i)
    decreases |t| - j
  {
    if j == |t| || IsLineTerminator(t[j]) then None
    else if SpeakerStop(t, j) then Some(j)
    else SpeakerEnd(t, j + 1)
  }

  /**
   * `\s*(.*?):\s*(.*)$` on the text `u` after the closing bracket. The greedy `\s*` skips
   * the leading white space of `u`; the speaker then runs to the first colon that lets the
   * rest match; the text group is what follows that colon and its white space.
   */
  function MatchAfterStamp(ts: string, u: string): (m: Option<Header>)
    ensures m.Some? ==> m.value.timestamp == ts
  {
    var p := SkipWhite(u, 0);
    match SpeakerEnd(u, p)
    case None => None
    case Some(q) => Some(Header(ts, u[p..q], u[SkipWhite(u, q + 1)..]))
  }

  /** The header pattern applied to a trimmed line: its capture groups, or None when it does not match. */
  function MatchHeader(t: string): Option<Header>
  {
    if |t| == 0 || t[0] != '[' then None
    else
      var k := FirstIndex(t, ']');
      if k == |t| || !IsStampPattern(t[1..k]) then None
      else MatchAfterStamp(t[1..k], t[k + 1..])
  }

  // ---------------------------------------------------------------------------
  // The line-by-line parse

  /** A line as the loop sees it: trimmed, and matched against the header pattern. */
  datatype Line = Line(trimmed: string, header: Option<Header>)

  function Classify(line: string): Line
  {
    var t := Trim(line);
    Line(t, MatchHeader(t))
  }

  function Classified(lines: seq<string>): (ls: seq<Line>)
    ensures |ls| == |lines| && forall i :: 0 <= i < |lines| ==> ls[i] == Classify(lines[i])
  {
    seq(|lines|, i requires 0 <= i < |lines| => Classify(lines[i]))
  }

  /** A segment from a matched header: timestamp verbatim, speaker and text trimmed. */
  function HeaderSegment(h: Header): Segment
  {
    Segment(h.timestamp, Trim(h.speaker), Trim(h.text))
  }

  /**
   * What one line does to the segments parsed so far: a header appends a segment; other
   * non-blank text is added, after a space, to the last segment's text; otherwise nothing.
   */
  function Step(segs: seq<Segment>, l: Line): seq<Segment>
  {
    match l.header
    case Some(h) => segs + [HeaderSegment(h)]
    case None =>
      if |l.trimmed| > 0 && |segs| > 0 then
        segs[|segs| - 1 := segs[|segs| - 1].(text := segs[|segs| - 1].text + " " + l.trimmed)]
      else segs
  }

  /** The lines applied in order to the segments `segs`. */
  function Fold(segs: seq<Segment>, ls: seq<Line>): seq<Segment>
    decreases |ls|
  {
    if ls == [] then segs else Fold(Step(segs, ls[0]), ls[1..])
  }

  function ParseLines(lines: seq<string>): seq<Segment>
  {
    Fold([], Classified(lines))
  }

  /** The segments `parseTranscript` returns for `rawText`. */
  function ParseText(rawText: string): seq<Segment>
  {
    ParseLines(Split(rawText, '\n'))
  }

  /** `parseTranscript`: one pass over the lines, pushing segments and extending the last one. */
  method ParseTranscript(rawText: string) returns (segments: seq<Segment>)
    ensures segments == ParseText(rawText)
  {
    var lines := Split(rawText, '\n');
    ghost var ls := Classified(lines);
    segments := [];
    var i := 0;
    while i < |lines|
      invariant 0 <= i <= |lines|
      invariant Fold(segments, ls[i..]) == ParseLines(lines)
    {
      ghost var before := segments;
      segments := ParseLine(segments, lines[i]);
      FoldFront(before, ls, i);
      i := i + 1;
    }
  }

  /**
   * The callback `parseTranscript` runs on each line: a header line pushes a new
   * segment, other non-blank text extends the last segment, anything else is dropped.
   */
  method ParseLine(segments: seq<Segment>, line: string) returns (next: seq<Segment>)
    ensures next == Step(segments, Classify(line))
  {
    var t := Trim(line);
    var m := MatchHeader(t);
    if m.Some? {
      next := segments + [HeaderSegment(m.value)];
    } else if |t| > 0 && |segments| > 0 {
      var last := |segments| - 1;
      next := segments[last := segments[last].(text := segments[last].text + " " + t)];
    } else {
      next := segments;
    }
  }

  // ---------------------------------------------------------------------------
  // Properties of the parse

  /** Folding from line `i` is one step on line `i`, then the fold from line `i + 1`. */
  lemma FoldFront(segs: seq<Segment>, ls: seq<Line>, i: nat)
    requires i < |ls|
    ensures Fold(segs, ls[i..]) == Fold(Step(segs, ls[i]), ls[i + 1..])
  {
    assert ls[i..][1..] == ls[i + 1..];
  }

  /** Applying lines one at a time from the end. */
  lemma {:induction false} FoldSnoc(segs: seq<Segment>, ls: seq<Line>, l: Line)
    ensures Fold(segs, ls + [l]) == Step(Fold(segs, ls), l)
    decreases |ls|
  {
    if ls == [] {
      assert [] + [l] == [l];
      assert [l][1..] == [];
    } else {
      assert (ls + [l])[1..] == ls[1..] + [l];
      FoldSnoc(Step(segs, ls[0]), ls[1..], l);
    }
  }

  /** The parse of some lines followed by one more: the last line is one more step. */
  lemma ParseSnoc(lines: seq<string>, line: string)
    ensures ParseLines(lines + [line]) == Step(ParseLines(lines), Classify(line))
  {
    var c := Classify(line);
    assert Classified(lines + [line]) == Classified(lines) + [c] by {
      var a, b := Classified(lines + [line]), Classified(lines) + [c];
      assert |a| == |b|;
      forall i | 0 <= i < |a| ensures a[i] == b[i] {
        if i < |lines| {
          assert (lines + [line])[i] == lines[i];
        }
      }
    }
    FoldSnoc([], Classified(lines), c);
  }

  /** A header line appends exactly one segment and leaves the earlier ones alone. */
  lemma HeaderLineAppends(lines: seq<string>, line: string, h: Header)
    requires MatchHeader(Trim(line)) == Some(h)
    ensures ParseLines(lines + [line]) == ParseLines(lines) + [HeaderSegment(h)]
  {
    ParseSnoc(lines, line);
  }

  /**
   * A non-blank line that is not a header is glued, after a space, onto the text of the
   * last segment; the count and all earlier segments stay; with no segment yet it is dropped.
   */
  lemma ContinuationLineMerges(lines: seq<string>, line: string)
    requires Trim(line) != [] && MatchHeader(Trim(line)).None?
    ensures var before, after := ParseLines(lines), ParseLines(lines + [line]);
      |after| == |before| &&
      (before != [] ==>
        after[..|before| - 1] == before[..|before| - 1] &&
        after[|before| - 1] == before[|before| - 1].(text := before[|before| - 1].text + " " + Trim(line)))
  {
    ParseSnoc(lines, line);
  }

  /** A blank line changes nothing. */
  lemma BlankLineIgnored(lines: seq<string>, line: string)
    requires Trim(line) == []
    ensures ParseLines(lines + [line]) == ParseLines(lines)
  {
    ParseSnoc(lines, line);
  }

  /** The headers among the lines, in order. */
  function Headers(ls: seq<Line>): seq<Header>
  {
    if ls == [] then []
    else
      var last := ls[|ls| - 1];
      Headers(ls[..|ls| - 1]) + match last.header case Some(h) => [h] case None => []
  }

  /**
   * One segment per header line, in source order: its timestamp is the bracketed text
   * verbatim and its speaker the trimmed speaker group.
   */
  lemma {:induction false} SegmentsFollowHeaders(ls: seq<Line>)
    ensures var segs, hs := Fold([], ls), Headers(ls);
      |segs| == |hs| &&
      forall k :: 0 <= k < |segs| ==> segs[k].timestamp == hs[k].timestamp && segs[k].speaker == Trim(hs[k].speaker)
    decreases |ls|
  {
    if ls != [] {
      var init, last := ls[..|ls| - 1], ls[|ls| - 1];
      assert init + [last] == ls;
      SegmentsFollowHeaders(init);
      FoldSnoc([], init, last);
      StepKeepsHeads(Fold([], init), last);
      assert Headers(ls) == Headers(init) + match last.header case Some(h) => [h] case None => [];
    }
  }

  /** One step keeps the timestamps and speakers so far, and a header adds its own. */
  lemma StepKeepsHeads(segs: seq<Segment>, l: Line)
    ensures var r := Step(segs, l);
      |r| == |segs| + (if l.header.Some? then 1 else 0) &&
      (forall k :: 0 <= k < |segs| ==> r[k].timestamp == segs[k].timestamp && r[k].speaker == segs[k].speaker) &&
      (l.header.Some? ==> r[|segs|].timestamp == l.header.value.timestamp && r[|segs|].speaker == Trim(l.header.value.speaker))
  {
  }

  /** Every header whose timestamp has the pattern's shape, for all lines. */
  lemma {:induction false} HeadersWellFormed(ls: seq<Line>)
    requires forall i :: 0 <= i < |ls| && ls[i].header.Some? ==> IsStampPattern(ls[i].header.value.timestamp)
    ensures forall k :: 0 <= k < |Headers(ls)| ==> IsStampPattern(Headers(ls)[k].timestamp)
    decreases |ls|
  {
    if ls != [] {
      HeadersWellFormed(ls[..|ls| - 1]);
    }
  }

  /** Every timestamp the parser produces has the header pattern's shape. */
  lemma ParsedStampsWellFormed(lines: seq<string>)
    ensures forall k :: 0 <= k < |ParseLines(lines)| ==> IsStampPattern(ParseLines(lines)[k].timestamp)
  {
    var ls := Classified(lines);
    forall i | 0 <= i < |ls| && ls[i].header.Some?
      ensures IsStampPattern(ls[i].header.value.timestamp)
    {
      MatchedStamp(Trim(lines[i]));
    }
    SegmentsFollowHeaders(ls);
    HeadersWellFormed(ls);
  }

  /** A matched line starts with its timestamp in brackets, and that timestamp has the pattern's shape. */
  lemma MatchedStamp(t: string)
    requires MatchHeader(t).Some?
    ensures var ts := MatchHeader(t).value.timestamp;
      IsStampPattern(ts) && |t| >= |ts| + 2 && t[..|ts| + 2] == "[" + ts + "]"
  {
    var k := FirstIndex(t, ']');
    assert MatchHeader(t).value.timestamp == t[1..k];
    BracketPrefix(t, k);
  }

  lemma BracketPrefix(t: string, k: nat)
    requires 0 < k < |t| && t[0] == '[' && t[k] == ']'
    ensures t[..k + 1] == "[" + t[1..k] + "]"
  {
  }

  /** A header timestamp has two or three digit fields, so `parseTimeInSeconds` reads it without its 0 fallback. */
  lemma StampParses(ts: string)
    requires IsStampPattern(ts)
    ensures |Split(ts, ':')| == 2 || |Split(ts, ':')| == 3
    ensures ParseTime(ts).Seconds?
  {
    if IsShortStamp(ts) {
      ShortStampParses(ts);
    } else {
      var a := ts[..|ts| - 3];
      var b := ts[|ts| - 2..];
      ShortStampFields(a);
      var x, y :| AllDigits(x) && AllDigits(y) && a == x + ":" + y;
      assert ts == x + ":" + y + ":" + b;
      SplitThree(x, y, b);
    }
  }

  lemma ShortStampParses(ts: string)
    requires IsShortStamp(ts)
    ensures |Split(ts, ':')| == 2 && ParseTime(ts).Seconds?
  {
    ShortStampFields(ts);
    var x, y :| AllDigits(x) && AllDigits(y) && ts == x + ":" + y;
    SplitTwo(x, y);
  }

  lemma ShortStampFields(ts: string)
    requires IsShortStamp(ts)
    ensures exists x, y :: AllDigits(x) && AllDigits(y) && ts == x + ":" + y
  {
    var x, y := ts[..|ts| - 3], ts[|ts| - 2..];
    assert ts[|ts| - 3..|ts| - 2] == ":";
    assert ts == x + ts[|ts| - 3..|ts| - 2] + y;
    assert AllDigits(x) && AllDigits(y) && ts == x + ":" + y;
  }

  /** Parser output never makes `parseTimeInSeconds` return NaN or its 0 fallback. */
  lemma ParsedStampsParse(rawText: string)
    ensures forall k :: 0 <= k < |ParseText(rawText)| ==>
      ParseTime(ParseText(rawText)[k].timestamp).Seconds? &&
      (|Split(ParseText(rawText)[k].timestamp, ':')| == 2 || |Split(ParseText(rawText)[k].timestamp, ':')| == 3)
  {
    var segs := ParseText(rawText);
    ParsedStampsWellFormed(Split(rawText, '\n'));
    forall k | 0 <= k < |segs|
      ensures ParseTime(segs[k].timestamp).Seconds? &&
        (|Split(segs[k].timestamp, ':')| == 2 || |Split(segs[k].timestamp, ':')| == 3)
    {
      StampParses(segs[k].timestamp);
    }
  }

  // ---------------------------------------------------------------------------
  // Properties of the header pattern

  /** On a line with no line terminator inside, the lazy speaker group stops at the first colon. */
  lemma SpeakerHasNoColon(t: string, h: Header)
    requires NoLineTerminator(t) && MatchHeader(t) == Some(h)
    ensures forall i :: 0 <= i < |h.speaker| ==> h.speaker[i] != ':'
  {
    var k := FirstIndex(t, ']');
    HeaderHasStamp(t, h);
    StampedHeader(t, k);
    SuffixNoLineTerminator(t, k + 1);
    AfterStampSpeakerHasNoColon(t[1..k], t[k + 1..], h);
  }

  /** A match needs a bracketed timestamp of the pattern's shape at the start. */
  lemma HeaderHasStamp(t: string, h: Header)
    requires MatchHeader(t) == Some(h)
    ensures |t| > 0 && t[0] == '[' && FirstIndex(t, ']') < |t| && IsStampPattern(t[1..FirstIndex(t, ']')])
  {
  }

  /** After a bracketed timestamp of the pattern's shape, the text after the bracket decides the match. */
  lemma StampedHeader(t: string, k: nat)
    requires |t| > 0 && t[0] == '[' && k == FirstIndex(t, ']') && k < |t| && IsStampPattern(t[1..k])
    ensures 1 <= k && MatchHeader(t) == MatchAfterStamp(t[1..k], t[k + 1..])
  {
    Reassembled(t, k);
    BracketedStamp(t[1..k], t[k + 1..]);
  }

  /** A text that opens with `[` and has `]` at `k` is the bracketed part and what follows it. */
  lemma Reassembled(t: string, k: nat)
    requires |t| > 0 && t[0] == '[' && k < |t| && t[k] == ']'
    ensures 1 <= k && t == "[" + t[1..k] + "]" + t[k + 1..]
  {
  }

  lemma SuffixNoLineTerminator(t: string, j: nat)
    requires j <= |t| && NoLineTerminator(t)
    ensures NoLineTerminator(t[j..])
  {
    assert forall i :: 0 <= i < |t| - j ==> t[j..][i] == t[j + i];
  }

  lemma AfterStampSpeakerHasNoColon(ts: string, u: string, h: Header)
    requires NoLineTerminator(u) && MatchAfterStamp(ts, u) == Some(h)
    ensures forall i :: 0 <= i < |h.speaker| ==> h.speaker[i] != ':'
  {
    var p := SkipWhite(u, 0);
    var q := SpeakerEnd(u, p).value;
    assert h.speaker == u[p..q];
    forall i | p <= i < q ensures u[i] != ':' {
      RestMatchesEverywhere(u, i + 1);
      assert !SpeakerStop(u, i);
    }
  }

  /** On a single line the tail `\s*(.*)$` matches from any position. */
  lemma RestMatchesEverywhere(u: string, j: nat)
    requires j <= |u| && NoLineTerminator(u)
    ensures RestMatches(u, j)
  {
  }

  /**
   * The line shape the model is asked for matches, with the groups one reads off it:
   * `[ts]`, white space, a speaker with neither colon nor line terminator, `:`, and a
   * rest whose text after its leading white space has no line terminator.
   */
  lemma MatchWellFormedLine(ts: string, gap: string, speaker: string, rest: string)
    requires IsStampPattern(ts)
    requires forall i :: 0 <= i < |gap| ==> IsWhitespace(gap[i])
    requires speaker == [] || !IsWhitespace(speaker[0])
    requires ':' !in speaker && NoLineTerminator(speaker)
    requires NoLineTerminator(TrimStart(rest))
    ensures MatchHeader("[" + ts + "]" + gap + speaker + ":" + rest) == Some(Header(ts, speaker, TrimStart(rest)))
  {
    var u := gap + speaker + ":" + rest;
    assert "[" + ts + "]" + gap + speaker + ":" + rest == "[" + ts + "]" + u;
    assert MatchAfterStamp(ts, u) == Some(Header(ts, speaker, TrimStart(rest))) by {
      TailMatches(rest);
      assert forall i :: 0 <= i < |speaker| ==> speaker[i] != ':' && !IsLineTerminator(speaker[i]);
      AfterStampWellFormed(ts, gap, speaker, rest);
    }
    BracketedStamp(ts, u);
  }

  /** `\s*(.*)$` matches a text whose part after the leading white space has no line terminator. */
  lemma TailMatches(rest: string)
    requires NoLineTerminator(TrimStart(rest))
    ensures RestMatches(rest, 0)
  {
  }

  /** After a bracketed well-formed timestamp, the match is decided by the text after the bracket. */
  lemma BracketedStamp(ts: string, u: string)
    requires IsStampPattern(ts)
    ensures MatchHeader("[" + ts + "]" + u) == MatchAfterStamp(ts, u)
  {
    var t := "[" + ts + "]" + u;
    var n := |ts| + 1;
    StampHasNoBracket(ts);
    assert t[n] == ']';
    assert forall i :: 0 <= i < n ==> t[i] != ']' by {
      forall i | 0 <= i < n ensures t[i] != ']' {
        if i > 0 {
          assert t[i] == ts[i - 1];
        }
      }
    }
    var k := FirstIndex(t, ']');
    assert k == n;
    assert t[1..k] == ts;
    assert t[k + 1..] == u;
  }

  lemma AfterStampWellFormed(ts: string, gap: string, speaker: string, rest: string)
    requires forall i :: 0 <= i < |gap| ==> IsWhitespace(gap[i])
    requires speaker == [] || !IsWhitespace(speaker[0])
    requires forall i :: 0 <= i < |speaker| ==> speaker[i] != ':' && !IsLineTerminator(speaker[i])
    requires RestMatches(rest, 0)
    ensures MatchAfterStamp(ts, gap + speaker + ":" + rest) == Some(Header(ts, speaker, TrimStart(rest)))
  {
    var head := gap + speaker + ":";
    var u, p, q := head + rest, |gap|, |gap| + |speaker|;
    assert |head| == q + 1;
    assert SkipWhite(u, 0) == p by {
      GapSkipped(gap, speaker, rest);
    }
    assert q < |u| && u[q] == ':' && RestMatches(u, q + 1) by {
      RestAfter(head, rest, |head|);
      SpeakerInside(gap, speaker, rest);
    }
    assert forall i :: p <= i < q ==> u[i] != ':' && !IsLineTerminator(u[i]) by {
      SpeakerInside(gap, speaker, rest);
    }
    assert u[p..q] == speaker by {
      SpeakerSlice(gap, speaker, rest);
    }
    assert u[SkipWhite(u, q + 1)..] == TrimStart(rest) by {
      RestAfter(head, rest, |head|);
    }
    SpeakerEndAt(u, p, q);
    MatchAfterStampAt(ts, u, p, q);
  }

  /** Where `\s*` stops and where the lazy group ends decide the groups. */
  lemma MatchAfterStampAt(ts: string, u: string, p: nat, q: nat)
    requires p <= |u| && SkipWhite(u, 0) == p && SpeakerEnd(u, p) == Some(q)
    ensures p <= q < |u|
    ensures MatchAfterStamp(ts, u) == Some(Header(ts, u[p..q], u[SkipWhite(u, q + 1)..]))
  {
  }

  /** Inside `gap + speaker + ":" + rest`, the speaker's positions hold its characters and the colon follows. */
  lemma SpeakerInside(gap: string, speaker: string, rest: string)
    requires forall i :: 0 <= i < |speaker| ==> speaker[i] != ':' && !IsLineTerminator(speaker[i])
    ensures |gap| + |speaker| < |gap + speaker + ":" + rest|
    ensures (gap + speaker + ":" + rest)[|gap|..|gap| + |speaker|] == speaker
    ensures (gap + speaker + ":" + rest)[|gap| + |speaker|] == ':'
    ensures forall i :: |gap| <= i < |gap| + |speaker| ==>
      (gap + speaker + ":" + rest)[i] != ':' && !IsLineTerminator((gap + speaker + ":" + rest)[i])
  {
    var u, p, q := gap + speaker + ":" + rest, |gap|, |gap| + |speaker|;
    assert u[p..q] == speaker;
    forall i | p <= i < q ensures u[i] != ':' && !IsLineTerminator(u[i]) {
      assert u[i] == speaker[i - p];
    }
  }

  /** The speaker sits right after the gap. */
  lemma SpeakerSlice(gap: string, speaker: string, rest: string)
    ensures |gap| + |speaker| < |gap + speaker + ":" + rest|
    ensures (gap + speaker + ":" + rest)[|gap|..|gap| + |speaker|] == speaker
  {
    assert gap + speaker + ":" + rest == gap + speaker + (":" + rest);
  }

  /** The greedy `\s*` consumes exactly the white space in front of a non-white character. */
  lemma GapSkipped(gap: string, speaker: string, rest: string)
    requires forall i :: 0 <= i < |gap| ==> IsWhitespace(gap[i])
    requires speaker == [] || !IsWhitespace(speaker[0])
    ensures SkipWhite(gap + speaker + ":" + rest, 0) == |gap|
  {
    var v := speaker + ":" + rest;
    var u := gap + v;
    assert u == gap + speaker + ":" + rest;
    assert forall i :: 0 <= i < |gap| ==> u[i] == gap[i];
    assert |gap| < |u| ==> u[|gap|] == v[0];
    SkipWhiteAt(u, 0, |gap|);
  }

  /** The pattern's tail, started right after `head`, sees only `rest`. */
  lemma RestAfter(head: string, rest: string, n: nat)
    requires n == |head| && RestMatches(rest, 0)
    ensures RestMatches(head + rest, n)
    ensures (head + rest)[SkipWhite(head + rest, n)..] == TrimStart(rest)
  {
    SkipWhiteShift(head, rest, n);
    LineEndShift(head, rest, n, SkipWhite(rest, 0));
  }

  /** Whitespace in `rest` is skipped the same way, shifted, inside `head + rest`. */
  lemma SkipWhiteShift(head: string, rest: string, n: nat)
    requires n == |head|
    ensures SkipWhite(head + rest, n) == n + SkipWhite(rest, 0)
    ensures (head + rest)[n + SkipWhite(rest, 0)..] == rest[SkipWhite(rest, 0)..]
  {
    var u := head + rest;
    var w := SkipWhite(rest, 0);
    assert forall i :: 0 <= i < |rest| ==> u[n + i] == rest[i];
    SkipWhiteAt(u, n, n + w);
    assert u[n + w..] == rest[w..];
  }

  /** Line ends in `rest` are found at the same place, shifted, inside `head + rest`. */
  lemma LineEndShift(head: string, rest: string, n: nat, j: nat)
    requires n == |head| && j <= |rest|
    ensures LineEnd(head + rest, n + j) == n + LineEnd(rest, j)
  {
    var u := head + rest;
    var e := LineEnd(rest, j);
    assert forall i :: j <= i < e ==> u[n + i] == rest[i];
    assert e < |rest| ==> u[n + e] == rest[e];
    LineEndAt(u, n + j, n + e);
  }

  /** `LineEnd` is the one position with no terminator before it and one (or the end) at it. */
  lemma LineEndAt(t: string, j: nat, e: nat)
    requires j <= e <= |t|
    requires forall i :: j <= i < e ==> !IsLineTerminator(t[i])
    requires e < |t| ==> IsLineTerminator(t[e])
    ensures LineEnd(t, j) == e
  {
  }

  /** The lazy speaker stops at `q` when nothing before it can stop it or end the line. */
  lemma SpeakerEndAt(u: string, p: nat, q: nat)
    requires p <= q < |u| && SpeakerStop(u, q)
    requires forall i :: p <= i < q ==> u[i] != ':' && !IsLineTerminator(u[i])
    ensures SpeakerEnd(u, p) == Some(q)
  {
  }

  lemma StampHasNoBracket(ts: string)
    requires IsStampPattern(ts)
    ensures ']' !in ts
  {
    forall i | 0 <= i < |ts| ensures ts[i] != ']' {
      if !IsShortStamp(ts) && i < |ts| - 3 {
        assert ts[i] == ts[..|ts| - 3][i];
      }
    }
  }
  // ---------------------------------------------------------------------------
  // A reply whose timestamps go back

  /** A header line `[ts] S: x` with a one-character speaker and text parses to that segment. */
  lemma SimpleHeader(ts: string, speaker: char, text: char)
    requires IsShortStamp(ts) && !IsWhitespace(speaker) && !IsWhitespace(text)
    requires speaker != ':' && !IsLineTerminator(speaker) && !IsLineTerminator(text)
    ensures MatchHeader(Trim(SimpleLine(ts, speaker, text))) == Some(Header(ts, [speaker], [text]))
    ensures HeaderSegment(Header(ts, [speaker], [text])) == Segment(ts, [speaker], [text])
  {
    var line := SimpleLine(ts, speaker, text);
    assert line[0] == '[' && line[|line| - 1] == text;
    TrimUnchanged(line);
    assert line == "[" + ts + "]" + " " + [speaker] + ":" + [' ', text];
    SkipWhiteAt([' ', text], 0, 1);
    assert TrimStart([' ', text]) == [text];
    MatchWellFormedLine(ts, " ", [speaker], [' ', text]);
    TrimUnchanged([speaker]);
    TrimUnchanged([text]);
  }

  /** The line `[ts] S: x` with a one-character speaker and text. */
  function SimpleLine(ts: string, speaker: char, text: char): string
  {
    "[" + ts + "] " + [speaker] + ": " + [text]
  }

  lemma SimpleLineNoNewline(ts: string, speaker: char, text: char)
    requires IsShortStamp(ts) && !IsLineTerminator(speaker) && !IsLineTerminator(text)
    ensures '\n' !in SimpleLine(ts, speaker, text)
  {
    var l := SimpleLine(ts, speaker, text);
    forall i | 0 <= i < |l| ensures l[i] != '\n' {
      if 1 <= i <= |ts| {
        assert l[i] == ts[i - 1];
      }
    }
  }

  /** A reply of two such header lines parses to their two segments, in line order, whatever their timestamps. */
  lemma TwoHeaderReply(ts1: string, a: char, x: char, ts2: string, b: char, y: char)
    requires IsShortStamp(ts1) && !IsWhitespace(a) && !IsWhitespace(x)
    requires a != ':' && !IsLineTerminator(a) && !IsLineTerminator(x)
    requires IsShortStamp(ts2) && !IsWhitespace(b) && !IsWhitespace(y)
    requires b != ':' && !IsLineTerminator(b) && !IsLineTerminator(y)
    ensures ParseText(SimpleLine(ts1, a, x) + ['\n'] + SimpleLine(ts2, b, y)) ==
      [Segment(ts1, [a], [x]), Segment(ts2, [b], [y])]
  {
    var l1, l2 := SimpleLine(ts1, a, x), SimpleLine(ts2, b, y);
    SimpleLineNoNewline(ts1, a, x);
    SimpleLineNoNewline(ts2, b, y);
    TwoLineSplit(l1, l2);
    SimpleHeader(ts1, a, x);
    SimpleHeader(ts2, b, y);
    TwoHeaderLines(l1, l2, Header(ts1, [a], [x]), Header(ts2, [b], [y]));
  }

  lemma TwoLineSplit(l1: string, l2: string)
    requires '\n' !in l1 && '\n' !in l2
    ensures Split(l1 + ['\n'] + l2, '\n') == [l1, l2]
  {
    SplitCons(l1, '\n', l2);
    SplitNoSeparator(l2, '\n');
  }

  /** Two header lines give their two segments, in order. */
  lemma TwoHeaderLines(l1: string, l2: string, h1: Header, h2: Header)
    requires MatchHeader(Trim(l1)) == Some(h1) && MatchHeader(Trim(l2)) == Some(h2)
    ensures ParseLines([l1, l2]) == [HeaderSegment(h1), HeaderSegment(h2)]
  {
    var c1, c2 := Classify(l1), Classify(l2);
    assert Classified([l1, l2]) == [c1, c2];
    FoldTwoHeaders(c1, c2);
  }

  lemma FoldTwoHeaders(c1: Line, c2: Line)
    requires c1.header.Some? && c2.header.Some?
    ensures Fold([], [c1, c2]) == [HeaderSegment(c1.header.value), HeaderSegment(c2.header.value)]
  {
    var s1 := Step([], c1);
    assert s1 == [HeaderSegment(c1.header.value)];
    assert [c1, c2][1..] == [c2];
    assert Fold([], [c1, c2]) == Fold(s1, [c2]);
    assert [c2][1..] == [];
    assert Fold(s1, [c2]) == Fold(Step(s1, c2), []);
  }

  // ---------------------------------------------------------------------------
  // A line terminator inside a trimmed line

  /**
   * `trim` keeps a U+2028 inside a line, and `.` does not match it, so the lazy speaker
   * group cannot stop at a colon that such a character follows: `[00:00] A:B:<U+2028>C`
   * reads as speaker `A:B` and text `C`.
   */
  lemma SpeakerMayHoldColon()
    ensures MatchHeader("[00:00] A:B:\U{2028}C") == Some(Header("00:00", "A:B", "C"))
  {
    var u := " A:B:\U{2028}C";
    assert IsShortStamp("00:00");
    assert "[00:00] A:B:\U{2028}C" == "[" + "00:00" + "]" + u;
    BracketedStamp("00:00", u);
    ColonExampleAfterStamp(u);
  }

  lemma ColonExampleAfterStamp(u: string)
    requires u == [' ', 'A', ':', 'B', ':', '\U{2028}', 'C']
    ensures MatchAfterStamp("00:00", u) == Some(Header("00:00", "A:B", "C"))
  {
    SkipWhiteAt(u, 0, 1);
    ColonExampleStops(u);
    assert SpeakerEnd(u, 4) == Some(4);
    assert SpeakerEnd(u, 3) == Some(4);
    assert SpeakerEnd(u, 2) == Some(4);
    assert SpeakerEnd(u, 1) == Some(4);
    assert u[1..4] == "A:B" && u[6..] == "C";
  }

  /** The first colon is followed by a line terminator before the end; the second is not. */
  lemma ColonExampleStops(u: string)
    requires u == [' ', 'A', ':', 'B', ':', '\U{2028}', 'C']
    ensures !SpeakerStop(u, 2) && SpeakerStop(u, 4) && SkipWhite(u, 5) == 6
  {
    SkipWhiteAt(u, 3, 3);
    LineEndAt(u, 3, 5);
    SkipWhiteAt(u, 5, 6);
    LineEndAt(u, 6, 7);
  }
}
