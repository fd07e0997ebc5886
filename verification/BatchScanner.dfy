/**
 * The stream decoder as a scan over the whole input: try the next sync pair, step over a
 * frame that checks out, move on by one byte from a pair that does not.
 */
module BatchScanner {
  import opened Bytes
  import opened FrameCodec
  import opened StreamMachine

  /** A decision about the sync pair at stream position `at`. */
  datatype Finding =
    | FrameFound(at: nat, frame: bytes)
    | Rejection(at: nat, reason: DecodeError)

  datatype ScanResult = ScanResult(findings: seq<Finding>, pending: nat)

  /** Findings from `from` on, and the position of the first byte that has to wait for more input. */
  function Scan(s: bytes, from: nat): (r: ScanResult)
    requires from <= |s|
    ensures from <= r.pending <= |s|
    decreases |s| - from
  {
    var i := NextCandidate(s, from);
    match Judge(s[i..])
    case Incomplete => ScanResult([], i)
    case Accept(size) => Join([FrameFound(i, s[i..i + size])], Scan(s, i + size))
    case Reject(reason) => Join([Rejection(i, reason)], Scan(s, i + 1))
  }

  /** Findings `r`, then those of `more`. */
  function Join(r: seq<Finding>, more: ScanResult): ScanResult {
    ScanResult(r + more.findings, more.pending)
  }

  lemma JoinTwice(f: seq<Finding>, r: seq<Finding>, more: ScanResult)
    ensures Join(f + r, more) == Join(f, Join(r, more))
  {
    assert (f + r) + more.findings == f + (r + more.findings);
  }

  lemma JoinNothing(r: ScanResult)
    ensures Join([], r) == r
  {
    assert [] + r.findings == r.findings;
  }

  lemma ScanStep(s: bytes, from: nat, i: nat)
    requires from <= |s| && NextCandidate(s, from) == i
    ensures var v := Judge(s[i..]);
      && (v.Incomplete? ==> Scan(s, from) == ScanResult([], i))
      && (v.Accept? ==> Scan(s, from) == Join([FrameFound(i, s[i..i + v.size])], Scan(s, i + v.size)))
      && (v.Reject? ==> Scan(s, from) == Join([Rejection(i, v.reason)], Scan(s, i + 1)))
  {
    hide Judge, NextCandidate, IsFrame, IsCandidate, Join;
  }

  function FindingIn(s: Span, at: nat): seq<Finding> {
    match s
    case Noise(_) => []
    case Accepted(f) => [FrameFound(at, f)]
    case Dropped(_, reason, _) => [Rejection(at, reason)]
  }

  /** The frames and rejections among settled spans, the first of which starts at `base`. */
  function Findings(spans: seq<Span>, base: nat): seq<Finding> {
    if |spans| == 0 then []
    else FindingIn(spans[0], base) + Findings(spans[1..], base + |SpanBytes(spans[0])|)
  }

  lemma {:induction false} FindingsConcat(a: seq<Span>, b: seq<Span>, base: nat)
    ensures Findings(a + b, base) == Findings(a, base) + Findings(b, base + |Flatten(a)|)
    decreases a
  {
    if |a| == 0 {
      assert a + b == b;
    } else {
      assert (a + b)[1..] == a[1..] + b && (a + b)[0] == a[0];
      FindingsConcat(a[1..], b, base + |SpanBytes(a[0])|);
    }
  }

  // ----- One buffer against one scan

  /** A position the scan can be waiting at: the end of the input, or a candidate not yet decided. */
  predicate Waiting(s: bytes, q: nat) {
    q <= |s| && (q < |s| ==> IsCandidate(s, q)) && Judge(s[q..]).Incomplete?
  }

  lemma ScanFromCandidate(s: bytes, a: nat, b: nat)
    requires a <= b <= |s| && NextCandidate(s, a) == NextCandidate(s, b)
    ensures Scan(s, a) == Scan(s, b)
  {
    hide Judge, NextCandidate, IsFrame, IsCandidate;
  }

  lemma {:induction false} ScanWaits(s: bytes, from: nat)
    requires from <= |s|
    ensures Waiting(s, Scan(s, from).pending)
    decreases |s| - from
  {
    hide Judge, NextCandidate, IsFrame, IsCandidate;
    var i := NextCandidate(s, from);
    match Judge(s[i..])
    case Incomplete =>
    case Accept(size) => ScanWaits(s, i + size);
    case Reject(reason) => ScanWaits(s, i + 1);
  }

  predicate Matches(p: Progress, s: bytes, q: nat)
    requires q <= |s|
  {
    var r := Scan(s, q);
    Findings(p.spans, q) == r.findings && p.buffer == s[r.pending..]
  }

  lemma MatchNext(spans: seq<Span>, p: Progress, s: bytes, q: nat, i: nat, found: seq<Finding>)
    requires q <= i <= |s| && Matches(p, s, i)
    requires |Flatten(spans)| == i - q && Findings(spans, q) == found
    requires Scan(s, q) == Join(found, Scan(s, i))
    ensures Matches(After(spans, p), s, q)
  {
    hide Scan, Findings, Flatten;
    FindingsConcat(spans, p.spans, q);
  }

  lemma OneFinding(s: Span, q: nat)
    ensures Findings([s], q) == FindingIn(s, q)
  {
    assert [s][1..] == [];
  }

  lemma NoiseFindsNothing(rest: bytes, q: nat)
    ensures Findings(RealignNoise(rest), q) == []
  {
    hide NextCandidate;
    OneFinding(Noise(rest[..NextCandidate(rest, 0)]), q);
  }

  lemma RealignFindsNothing(frame: bytes, rest: bytes, q: nat)
    ensures Findings([Accepted(frame)] + RealignNoise(rest), q) == [FrameFound(q, frame)]
    ensures |Flatten([Accepted(frame)] + RealignNoise(rest))| == |frame| + NextCandidate(rest, 0)
  {
    hide NextCandidate, RealignNoise, Findings, Flatten;
    var noise := RealignNoise(rest);
    FindingsConcat([Accepted(frame)], noise, q);
    OneFinding(Accepted(frame), q);
    FlattenOne(Accepted(frame));
    NoiseFindsNothing(rest, q + |frame|);
    FlattenConcat([Accepted(frame)], noise);
    RealignConserves(rest);
  }

  lemma RejectMatches(s: bytes, q: nat, i: nat, reason: DecodeError)
    requires q < |s| && IsCandidate(s, q) && Judge(s[q..]) == Reject(reason)
    requires i == NextCandidate(s[q..], 1) && Matches(Process(s[q + i..]), s, q + i)
    ensures Matches(Process(s[q..]), s, q)
  {
    hide Judge, Matches, Findings, Flatten, NextCandidate, Scan, Join, Process, IsCandidate;
    var b := s[q..];
    var dropped := Dropped(b[..i], reason, b);
    NextCandidateIs(s, q, q);
    ScanStep(s, q, q);
    CandidateShift(s, q, 1);
    ScanFromCandidate(s, q + 1, q + i);
    ProcessReject(b, reason);
    assert b[i..] == s[q + i..];
    OneFinding(dropped, q);
    FlattenOne(dropped);
    MatchNext([dropped], Process(b[i..]), s, q, q + i, [Rejection(q, reason)]);
  }

  lemma AcceptMatches(s: bytes, q: nat, size: nat, i: nat)
    requires q < |s| && IsCandidate(s, q) && Judge(s[q..]) == Accept(size)
    requires i == NextCandidate(s[q + size..], 0) && Matches(Process(s[q + size + i..]), s, q + size + i)
    ensures Matches(Process(s[q..]), s, q)
  {
    hide Judge, Matches, RealignNoise, IsFrame, Findings, Flatten, NextCandidate, Scan, Join, Process, IsCandidate;
    var b, rest := s[q..], s[q + size..];
    var frame := b[..size];
    NextCandidateIs(s, q, q);
    ScanStep(s, q, q);
    CandidateShift(s, q + size, 0);
    ScanFromCandidate(s, q + size, q + size + i);
    ProcessAccept(b, size);
    assert b[size..] == rest && frame == s[q..q + size];
    assert rest[i..] == s[q + size + i..];
    RealignFindsNothing(frame, rest, q);
    MatchNext([Accepted(frame)] + RealignNoise(rest), Process(rest[i..]), s, q, q + size + i, [FrameFound(q, frame)]);
  }

  /** Processing a buffer that starts at a candidate is scanning from there. */
  lemma {:induction false} ProcessIsScan(s: bytes, q: nat)
    requires q <= |s| && (q < |s| ==> IsCandidate(s, q))
    ensures Matches(Process(s[q..]), s, q)
    decreases |s| - q
  {
    hide Judge, Matches, IsFrame, NextCandidate;
    match Judge(s[q..])
    case Incomplete =>
      MatchWaiting(s, q);
    case Reject(reason) =>
      var i := NextCandidate(s[q..], 1);
      CandidateShift(s, q, 1);
      ProcessIsScan(s, q + i);
      RejectMatches(s, q, i, reason);
    case Accept(size) =>
      var i := NextCandidate(s[q + size..], 0);
      CandidateShift(s, q + size, 0);
      ProcessIsScan(s, q + size + i);
      AcceptMatches(s, q, size, i);
  }

  lemma MatchWaiting(s: bytes, q: nat)
    requires Waiting(s, q)
    ensures Matches(Progress([], s[q..]), s, q)
  {
    hide Judge;
    NextCandidateIs(s, q, q);
  }

  lemma HuntIsScan(s: bytes, q: nat)
    requires q <= |s| && |s| - q <= 2
    ensures var b := s[q..];
      var i := NextCandidate(b, 0);
      Matches(Progress(if i == 0 then [] else [Noise(b[..i])], b[i..]), s, q)
  {
    hide Judge, IsCandidate, NextCandidate, Scan;
    var b := s[q..];
    var i := NextCandidate(b, 0);
    CandidateShift(s, q, 0);
    ScanStep(s, q, q + i);
    JudgeCases(s[q + i..]);
    assert b[i..] == s[q + i..];
    OneFinding(Noise(b[..i]), q);
  }

  lemma PushIsScan(s: bytes, q: nat, x: byte)
    requires Waiting(s, q)
    ensures Matches(Push(s[q..], x), s + [x], q)
  {
    hide Judge, NextCandidate, Process, Matches;
    var b, t := s[q..], s + [x];
    assert t[q..] == b + [x];
    if |b| < 2 {
      HuntIsScan(t, q);
    } else {
      assert IsCandidate(t, q);
      ProcessIsScan(t, q);
    }
  }

  // ----- Decisions are final: more input only adds to them

  lemma JudgeIsFinal(b: bytes, t: bytes)
    requires !Judge(b).Incomplete?
    ensures Judge(b + t) == Judge(b)
  {
    hide Decoded;
    assert PayloadLength(b + t) == PayloadLength(b);
    var size := MINIMUM_FRAME_SIZE + PayloadLength(b);
    if size <= |b| {
      assert (b + t)[..size] == b[..size];
    }
  }

  lemma CandidatesSurvive(s: bytes, t: bytes, from: nat, to: nat)
    requires from <= to <= |s|
    requires forall j :: from <= j < to ==> !IsCandidate(s, j)
    ensures NextCandidate(s + t, from) == NextCandidate(s + t, to)
  {
    forall j | from <= j < to ensures !IsCandidate(s + t, j) {
      assert !IsCandidate(s, j);
    }
    NextCandidateIs(s + t, from, NextCandidate(s + t, to));
  }

  lemma VerdictSurvives(s: bytes, t: bytes, i: nat)
    requires i <= |s| && (i < |s| ==> IsCandidate(s, i)) && !Judge(s[i..]).Incomplete?
    ensures Judge((s + t)[i..]) == Judge(s[i..])
    ensures NextCandidate(s + t, i) == i
  {
    assert (s + t)[i..] == s[i..] + t;
    JudgeIsFinal(s[i..], t);
    assert IsCandidate(s + t, i);
    NextCandidateIs(s + t, i, i);
  }

  /** Scanning a longer input finds what the shorter one held, then goes on from where that was waiting. */
  lemma {:induction false} ScanExtends(s: bytes, t: bytes, from: nat)
    requires from <= |s|
    ensures Scan(s + t, from) == Join(Scan(s, from).findings, Scan(s + t, Scan(s, from).pending))
    decreases |s| - from
  {
    hide Judge, IsFrame, NextCandidate, IsCandidate, Scan;
    var i := NextCandidate(s, from);
    CandidatesSurvive(s, t, from, i);
    ScanStep(s, from, i);
    match Judge(s[i..])
    case Incomplete =>
      ScanFromCandidate(s + t, from, i);
      JoinNothing(Scan(s + t, i));
    case Accept(size) =>
      VerdictSurvives(s, t, i);
      ScanStep(s + t, from, i);
      assert (s + t)[i..i + size] == s[i..i + size];
      ScanExtends(s, t, i + size);
      JoinTwice([FrameFound(i, s[i..i + size])], Scan(s, i + size).findings, Scan(s + t, Scan(s, from).pending));
    case Reject(reason) =>
      VerdictSurvives(s, t, i);
      ScanStep(s + t, from, i);
      ScanExtends(s, t, i + 1);
      JoinTwice([Rejection(i, reason)], Scan(s, i + 1).findings, Scan(s + t, Scan(s, from).pending));
  }

  // ----- The stream decoder is the scan

  /** Pushing one byte moves the buffer from one waiting position to the next. */
  lemma PushAdvances(s: bytes, q: nat, x: byte)
    requires Waiting(s, q)
    ensures var p, r := Push(s[q..], x), Scan(s + [x], q);
      && Findings(p.spans, q) == r.findings
      && p.buffer == (s + [x])[r.pending..]
      && |Flatten(p.spans)| == r.pending - q
      && Waiting(s + [x], r.pending)
  {
    hide Judge, Push, Findings, Scan, Flatten;
    PushIsScan(s, q, x);
    ScanWaits(s + [x], q);
    PushConserves(s[q..], x);
    WholeIs(Push(s[q..], x));
  }

  lemma FirstPushMatches(s: bytes, q: nat, x: byte, rest: bytes, q': nat)
    requires Waiting(s, q) && q' == Scan(s + [x], q).pending
    requires Matches(Feed((s + [x])[q'..], rest), s + [x] + rest, q')
    ensures var p := Push(s[q..], x); Matches(After(p.spans, Feed(p.buffer, rest)), s + [x] + rest, q)
  {
    assert q <= |s|;
    hide Push, Waiting, Findings, Flatten, Scan, Join, Matches, Feed;
    var t := s + [x];
    var p := Push(s[q..], x);
    PushAdvances(s, q, x);
    ScanExtends(t, rest, q);
    MatchNext(p.spans, Feed(p.buffer, rest), t + rest, q, q', Scan(t, q).findings);
  }

  lemma Appended(s: bytes, input: bytes)
    requires |input| > 0
    ensures s + input == s + [input[0]] + input[1..]
  {}

  lemma NoInputMatches(s: bytes, q: nat)
    requires Waiting(s, q)
    ensures Matches(Feed(s[q..], []), s + [], q)
  {
    hide Judge, Matches;
    MatchWaiting(s, q);
    assert s + [] == s;
  }

  lemma {:induction false} FeedIsScan(s: bytes, q: nat, input: bytes)
    requires q <= |s| && Waiting(s, q)
    ensures Matches(Feed(s[q..], input), s + input, q)
    decreases input
  {
    hide Push, Waiting, Scan, Matches, Judge, IsCandidate;
    if |input| == 0 {
      NoInputMatches(s, q);
    } else {
      var x, rest := input[0], input[1..];
      PushAdvances(s, q, x);
      var q' := Scan(s + [x], q).pending;
      FeedIsScan(s + [x], q', rest);
      Appended(s, input);
      FirstPushMatches(s, q, x, rest, q');
    }
  }

  lemma NothingWaits()
    ensures Waiting([], 0)
  {}

  /** For every input the decoder settles exactly the frames and rejections of the scan, where the scan does. */
  lemma StreamIsScan(input: bytes)
    ensures var p, r := Feed([], input), Scan(input, 0);
      && Findings(p.spans, 0) == r.findings
      && p.buffer == input[r.pending..]
  {
    hide Feed, Scan, Findings;
    NothingWaits();
    FeedIsScan([], 0, input);
    assert [] + input == input;
    var nothing: bytes := [];
    assert nothing[0..] == nothing;
  }

  /** A decision without its position, as the handler sees it. */
  datatype Announcement = Delivered(frame: bytes) | Refused(reason: DecodeError)

  function AnnouncementIn(e: StreamEvent): seq<Announcement> {
    match e
    case FrameDecoded(f) => [Delivered(f)]
    case FrameRejected(reason, _) => [Refused(reason)]
    case _ => []
  }

  function Announced(events: seq<StreamEvent>): seq<Announcement> {
    if |events| == 0 then [] else AnnouncementIn(events[0]) + Announced(events[1..])
  }

  function WithoutPosition(f: Finding): Announcement {
    match f
    case FrameFound(_, frame) => Delivered(frame)
    case Rejection(_, reason) => Refused(reason)
  }

  function WithoutPositions(findings: seq<Finding>): (a: seq<Announcement>)
    ensures |a| == |findings| && forall k :: 0 <= k < |a| ==> a[k] == WithoutPosition(findings[k])
  {
    seq(|findings|, k requires 0 <= k < |findings| => WithoutPosition(findings[k]))
  }

  lemma SpanAnnouncesFinding(s: Span, at: nat)
    ensures AnnouncementIn(EventOf(s)) == WithoutPositions(FindingIn(s, at))
  {}

  lemma WithoutPositionsConcat(a: seq<Finding>, b: seq<Finding>)
    ensures WithoutPositions(a + b) == WithoutPositions(a) + WithoutPositions(b)
  {}

  lemma FirstEvent(spans: seq<Span>)
    requires |spans| > 0
    ensures Announced(Events(spans)) == AnnouncementIn(EventOf(spans[0])) + Announced(Events(spans[1..]))
  {
    hide AnnouncementIn;
    assert Events(spans)[1..] == Events(spans[1..]);
  }

  lemma {:induction false} EventsAnnounceFindings(spans: seq<Span>, base: nat)
    ensures Announced(Events(spans)) == WithoutPositions(Findings(spans, base))
    decreases spans
  {
    if |spans| > 0 {
      var rest := Findings(spans[1..], base + |SpanBytes(spans[0])|);
      assert Findings(spans, base) == FindingIn(spans[0], base) + rest;
      hide Findings, Announced, WithoutPositions, FindingIn, Events, AnnouncementIn;
      EventsAnnounceFindings(spans[1..], base + |SpanBytes(spans[0])|);
      FirstEvent(spans);
      SpanAnnouncesFinding(spans[0], base);
      WithoutPositionsConcat(FindingIn(spans[0], base), rest);
    }
  }

  /** The frames and rejections reported to the handler are the batch scan's, in the scan's order. */
  lemma HandlerSeesScan(input: bytes)
    ensures Announced(Events(Feed([], input).spans)) == WithoutPositions(Scan(input, 0).findings)
  {
    hide Feed, Scan, Findings, Announced, Events;
    StreamIsScan(input);
    EventsAnnounceFindings(Feed([], input).spans, 0);
  }

  // ----- What the scan finds, sync pair by sync pair

  predicate SyncPairAt(s: bytes, p: nat) {
    p + 1 < |s| && s[p] == SYNC_FIRST && s[p + 1] == SYNC_SECOND
  }

  /** The decision at `f.at` is the one the bytes there call for. */
  predicate Sound(s: bytes, f: Finding) {
    && SyncPairAt(s, f.at)
    && match f
       case FrameFound(at, frame) => Judge(s[at..]) == Accept(|frame|) && frame == s[at..at + |frame|] && IsFrame(frame)
       case Rejection(at, reason) => Judge(s[at..]) == Reject(reason) && IsRejectReason(reason)
  }

  function EndOf(f: Finding): nat {
    if f.FrameFound? then f.at + |f.frame| else f.at + 1
  }

  /** The finding decides about position `p`, or covers it with a frame. */
  predicate Covers(f: Finding, p: nat) { f.at <= p < EndOf(f) }

  ghost predicate Ordered(findings: seq<Finding>, from: nat, to: nat) {
    && (forall k :: 0 <= k < |findings| ==> from <= findings[k].at && EndOf(findings[k]) <= to)
    && (forall j, k :: 0 <= j < k < |findings| ==> EndOf(findings[j]) <= findings[k].at)
  }

  lemma DecidedIsSync(s: bytes, i: nat)
    requires i < |s| && IsCandidate(s, i) && !Judge(s[i..]).Incomplete?
    ensures SyncPairAt(s, i)
    ensures Judge(s[i..]).Reject? ==> IsRejectReason(Judge(s[i..]).reason)
    ensures Judge(s[i..]).Accept? ==> i + Judge(s[i..]).size <= |s|
  {
    hide Decoded, IsRejectReason;
    if Judge(s[i..]).Reject? {
      RejectReasons(s[i..]);
    }
  }

  lemma DecisionIsSound(s: bytes, i: nat)
    requires i < |s| && IsCandidate(s, i)
    ensures Judge(s[i..]).Accept? ==> Sound(s, FrameFound(i, s[i..i + Judge(s[i..]).size]))
    ensures Judge(s[i..]).Reject? ==> Sound(s, Rejection(i, Judge(s[i..]).reason))
  {
    hide Judge, IsFrame, IsCandidate, SyncPairAt, IsRejectReason;
    if !Judge(s[i..]).Incomplete? {
      DecidedIsSync(s, i);
    }
    if Judge(s[i..]).Accept? {
      var size := Judge(s[i..]).size;
      assert s[i..][..size] == s[i..i + size];
    }
  }
}
