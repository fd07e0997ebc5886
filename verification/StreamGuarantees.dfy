/** What the stream decoder promises about every input: completeness, recovery, delivery, conservation. */
module StreamGuarantees {
  import opened Wrappers
  import opened Bytes
  import opened FrameCodec
  import opened StreamMachine
  import opened BatchScanner

  // ----- Every decision is justified, and every sync pair is decided

  lemma OrderedCons(f: Finding, rest: seq<Finding>, from: nat, mid: nat, to: nat)
    requires from <= f.at && EndOf(f) <= mid <= to && Ordered(rest, mid, to)
    ensures Ordered([f] + rest, from, to)
  {
    var all := [f] + rest;
    assert forall k :: 0 < k < |all| ==> all[k] == rest[k - 1];
  }

  lemma {:induction false} ScanIsSound(s: bytes, from: nat)
    requires from <= |s|
    ensures forall f :: f in Scan(s, from).findings ==> Sound(s, f)
    ensures Ordered(Scan(s, from).findings, from, Scan(s, from).pending)
    decreases |s| - from
  {
    hide Judge, IsFrame, NextCandidate, IsCandidate, Scan, Sound, Ordered;
    var i := NextCandidate(s, from);
    ScanStep(s, from, i);
    if i < |s| {
      DecisionIsSound(s, i);
    }
    match Judge(s[i..])
    case Incomplete =>
      NothingOrdered(from, i);
    case Accept(size) =>
      ScanIsSound(s, i + size);
      OrderedCons(FrameFound(i, s[i..i + size]), Scan(s, i + size).findings, from, i + size, Scan(s, from).pending);
    case Reject(reason) =>
      ScanIsSound(s, i + 1);
      OrderedCons(Rejection(i, reason), Scan(s, i + 1).findings, from, i + 1, Scan(s, from).pending);
  }

  lemma NothingOrdered(from: nat, to: nat)
    ensures Ordered([], from, to)
  {}

  lemma {:induction false} ScanIsComplete(s: bytes, from: nat, p: nat)
    requires from <= p && p < |s| && p < Scan(s, from).pending && IsCandidate(s, p)
    ensures exists f :: f in Scan(s, from).findings && Covers(f, p)
    decreases |s| - from
  {
    hide Judge, IsFrame, NextCandidate, IsCandidate, Scan;
    var i := NextCandidate(s, from);
    ScanStep(s, from, i);
    match Judge(s[i..])
    case Incomplete =>
    case Accept(size) =>
      var f := FrameFound(i, s[i..i + size]);
      if p < i + size {
        assert f in Scan(s, from).findings && Covers(f, p);
      } else {
        ScanIsComplete(s, i + size, p);
      }
    case Reject(reason) =>
      var f := Rejection(i, reason);
      if p == i {
        assert f in Scan(s, from).findings && Covers(f, p);
      } else {
        ScanIsComplete(s, i + 1, p);
      }
  }

  // ----- Where the decoder looks, told from the bytes alone

  /** What stands at `q` does not hold the decoder back from `p`: no frame reaching over it, no header still waiting. */
  predicate LetsThrough(s: bytes, q: nat, p: nat)
    requires q <= |s|
  {
    var v := Judge(s[q..]);
    v.Reject? || (v.Accept? && q + v.size <= p)
  }

  /** A frame may start at `p`, and every earlier position the decoder comes to lets it through to `p`. */
  predicate Reached(s: bytes, p: nat)
    decreases p
  {
    && p < |s| && IsCandidate(s, p)
    && forall q :: 0 <= q < p && Reached(s, q) ==> LetsThrough(s, q, p)
  }

  /** The scan tries `p`: it decides there, or waits there. */
  ghost predicate Tried(r: ScanResult, p: nat) {
    p == r.pending || exists f :: f in r.findings && f.at == p
  }

  lemma TriedIsCandidate(s: bytes, p: nat)
    requires p < |s| && Tried(Scan(s, 0), p)
    ensures IsCandidate(s, p)
  {
    hide Scan, Judge, IsFrame;
    ScanIsSound(s, 0);
    ScanWaits(s, 0);
  }

  lemma TriedInOrder(s: bytes, r: ScanResult, q: nat, p: nat)
    requires q < p <= r.pending && Tried(r, q) && Tried(r, p)
    requires Ordered(r.findings, 0, r.pending)
    ensures exists g :: g in r.findings && g.at == q && EndOf(g) <= p
  {
    var j :| 0 <= j < |r.findings| && r.findings[j].at == q;
    assert r.findings[j] in r.findings;
    if p != r.pending {
      var k :| 0 <= k < |r.findings| && r.findings[k].at == p;
    }
  }

  lemma TriedLetsThrough(s: bytes, q: nat, p: nat)
    requires q < p < |s| && Tried(Scan(s, 0), q) && Tried(Scan(s, 0), p)
    ensures LetsThrough(s, q, p)
  {
    var r := Scan(s, 0);
    ScanIsSound(s, 0);
    hide Scan, Judge, IsFrame, SyncPairAt, IsRejectReason;
    assert p <= r.pending;
    TriedInOrder(s, r, q, p);
    var g :| g in r.findings && g.at == q && EndOf(g) <= p;
    assert Sound(s, g);
  }

  /** A candidate the scan does not try is behind a tried one that holds it back. */
  lemma UntriedIsHeldBack(s: bytes, p: nat)
    requires p < |s| && IsCandidate(s, p) && !Tried(Scan(s, 0), p)
    ensures exists q :: 0 <= q < p && Tried(Scan(s, 0), q) && !LetsThrough(s, q, p)
  {
    hide Scan, Judge, IsFrame, SyncPairAt, IsCandidate, IsRejectReason;
    var r := Scan(s, 0);
    if p > r.pending {
      ScanWaits(s, 0);
      assert !LetsThrough(s, r.pending, p);
    } else {
      ScanIsSound(s, 0);
      ScanIsComplete(s, 0, p);
      var g :| g in r.findings && Covers(g, p);
      assert Sound(s, g) && Tried(r, g.at) && !LetsThrough(s, g.at, p);
    }
  }

  /** The scan tries exactly the reached positions. */
  lemma {:induction false} ReachedIsTried(s: bytes, p: nat)
    requires p < |s|
    ensures Reached(s, p) <==> Tried(Scan(s, 0), p)
    decreases p
  {
    hide Scan, Tried, LetsThrough, IsCandidate;
    forall q | 0 <= q < p ensures Reached(s, q) <==> Tried(Scan(s, 0), q) {
      ReachedIsTried(s, q);
    }
    if Tried(Scan(s, 0), p) {
      TriedIsCandidate(s, p);
      forall q | 0 <= q < p && Reached(s, q) ensures LetsThrough(s, q, p) {
        TriedLetsThrough(s, q, p);
      }
    } else if IsCandidate(s, p) {
      UntriedIsHeldBack(s, p);
    }
  }

  /** What the scan finds is exactly what the bytes call for at the reached positions. */
  lemma FoundExactlyWhen(s: bytes, f: Finding)
    ensures f in Scan(s, 0).findings <==> Reached(s, f.at) && Sound(s, f)
  {
    hide Scan, Reached, Judge, IsFrame, IsRejectReason;
    var r := Scan(s, 0);
    ScanIsSound(s, 0);
    ScanWaits(s, 0);
    if f.at < |s| {
      ReachedIsTried(s, f.at);
    }
    if f.at < |s| && Reached(s, f.at) && Sound(s, f) {
      assert f.at != r.pending;
      var g :| g in r.findings && g.at == f.at;
      assert Sound(s, g);
    }
  }

  /** The decoder's findings after `input`, counted from the first byte ever pushed. */
  function Decisions(input: bytes): seq<Finding> { Findings(Feed([], input).spans, 0) }

  /** How many bytes of `input` are settled; the rest is in the buffer. */
  function SettledBytes(input: bytes): nat {
    FeedConserves([], input);
    WholeIs(Feed([], input));
    |input| - |Feed([], input).buffer|
  }

  lemma DecisionsAreScan(input: bytes)
    ensures Decisions(input) == Scan(input, 0).findings
    ensures SettledBytes(input) == Scan(input, 0).pending
    ensures SettledBytes(input) > |input| - MAXIMUM_FRAME_SIZE
  {
    hide Feed, Scan, Findings, Judge;
    StreamIsScan(input);
    ScanWaits(input, 0);
  }

  /** Every decision is at a sync pair and is the right one for it; decisions come in order and never overlap. */
  lemma DecisionsAreSound(input: bytes)
    ensures forall f :: f in Decisions(input) ==> Sound(input, f)
    ensures Ordered(Decisions(input), 0, SettledBytes(input))
  {
    hide Decisions, SettledBytes, Scan, Sound, Ordered;
    DecisionsAreScan(input);
    ScanIsSound(input, 0);
  }

  /** The finding decides about position `p`, or is a frame that holds `p` strictly inside. */
  predicate Settles(f: Finding, p: nat) {
    f.at == p || (f.FrameFound? && f.at < p < f.at + |f.frame|)
  }

  /** Every settled sync pair was decided on its own or lies strictly inside an accepted frame. */
  lemma EverySyncPairIsDecided(input: bytes, p: nat)
    requires p < SettledBytes(input) && SyncPairAt(input, p)
    ensures exists f :: f in Decisions(input) && Sound(input, f) && Settles(f, p)
  {
    assert IsCandidate(input, p);
    hide Decisions, SettledBytes, Scan, Sound, Ordered, SyncPairAt, IsCandidate;
    DecisionsAreScan(input);
    ScanIsSound(input, 0);
    ScanIsComplete(input, 0, p);
    var f :| f in Decisions(input) && Covers(f, p);
    assert Sound(input, f);
  }

  /** `f` stands at position `p` of the input. */
  predicate FrameAt(input: bytes, p: nat, f: bytes) {
    p + |f| <= |input| && input[p..p + |f|] == f && IsFrame(f)
  }

  lemma FrameIsAccepted(f: bytes, t: bytes)
    requires IsFrame(f)
    ensures Judge(f + t) == Accept(|f|)
  {
    hide CrcMatches;
    assert |f| >= MINIMUM_FRAME_SIZE && PayloadLength(f + t) == PayloadLength(f);
    assert (f + t)[..|f|] == f;
  }

  lemma FrameAtIsAccepted(input: bytes, p: nat, f: bytes)
    requires FrameAt(input, p, f)
    ensures SyncPairAt(input, p) && Judge(input[p..]) == Accept(|f|)
  {
    hide IsFrame, Judge;
    FrameStarts(f);
    FrameIsAccepted(f, input[p + |f|..]);
    assert input[p..] == f + input[p + |f|..];
    assert input[p] == f[0] && input[p + 1] == f[1];
  }

  /**
   * Bounded recovery: once 76 bytes have come in from the start of a valid frame, that frame
   * has been delivered, unless an earlier delivered frame reaches over its first byte.
   */
  lemma RecoveryIsBounded(input: bytes, p: nat, f: bytes)
    requires FrameAt(input, p, f) && p + MAXIMUM_FRAME_SIZE <= |input|
    ensures FrameFound(p, f) in Decisions(input)
      || exists g :: g in Decisions(input) && g.FrameFound? && g.at < p < g.at + |g.frame|
  {
    hide Decisions, SettledBytes, Scan, Judge, IsFrame, SyncPairAt;
    FrameAtIsAccepted(input, p, f);
    DecisionsAreScan(input);
    EverySyncPairIsDecided(input, p);
    var g :| g in Decisions(input) && Sound(input, g) && Settles(g, p);
    if g.at == p {
      assert g == FrameFound(p, f);
    }
  }

  /** A frame found is a frame that stands there: nothing is made up. */
  lemma DeliveredFramesWereSent(input: bytes, p: nat, f: bytes)
    requires FrameFound(p, f) in Decisions(input)
    ensures FrameAt(input, p, f)
  {
    hide Decisions, Judge, IsFrame, SyncPairAt;
    DecisionsAreSound(input);
    assert Sound(input, FrameFound(p, f));
  }

  /** A valid frame has been delivered exactly if its start is settled and no other frame reaches over it. */
  lemma DeliveredOnceSettled(input: bytes, p: nat, f: bytes)
    requires FrameAt(input, p, f)
    ensures FrameFound(p, f) in Decisions(input)
      <==> (p < SettledBytes(input)
            && forall g :: g in Decisions(input) && g.FrameFound? ==> !(g.at < p < g.at + |g.frame|))
  {
    hide Decisions, SettledBytes, Scan, Judge, IsFrame, SyncPairAt;
    FrameAtIsAccepted(input, p, f);
    DecisionsAreSound(input);
    var mine := FrameFound(p, f);
    if mine in Decisions(input) {
      forall g | g in Decisions(input) && g.FrameFound? ensures !(g.at < p < g.at + |g.frame|) {
        NoOverlap(Decisions(input), g, mine, SettledBytes(input));
      }
      FrameStarts(f);
    } else if p < SettledBytes(input) {
      EverySyncPairIsDecided(input, p);
      var g :| g in Decisions(input) && Sound(input, g) && Settles(g, p);
      assert g.at == p ==> g == mine;
    }
  }

  /**
   * The decisions, from the bytes of the input alone: the decoder decides at exactly the
   * reached positions whose bytes are complete, and as those bytes call for.
   */
  lemma DecidedExactlyWhen(input: bytes, f: Finding)
    ensures f in Decisions(input) <==> Reached(input, f.at) && Sound(input, f)
  {
    hide Decisions, SettledBytes, Scan, Reached, Sound;
    DecisionsAreScan(input);
    FoundExactlyWhen(input, f);
  }

  /** A valid frame is delivered by the end of the stream exactly if the decoder reaches its first byte. */
  lemma DeliveredExactlyWhen(input: bytes, p: nat, f: bytes)
    requires FrameAt(input, p, f)
    ensures FrameFound(p, f) in Decisions(input) <==> Reached(input, p)
  {
    hide Decisions, Reached, Judge, IsFrame, SyncPairAt;
    FrameAtIsAccepted(input, p, f);
    DecidedExactlyWhen(input, FrameFound(p, f));
  }

  /** What is left in the buffer, and lost at the end of the stream: everything from the reached position that waits. */
  lemma BufferedExactlyWhen(input: bytes, p: nat)
    requires p < |input|
    ensures SettledBytes(input) == p <==> Reached(input, p) && Judge(input[p..]).Incomplete?
  {
    hide Decisions, SettledBytes, Scan, Reached, Judge, IsFrame, IsCandidate, SyncPairAt, IsRejectReason;
    DecisionsAreScan(input);
    ReachedIsTried(input, p);
    ScanWaits(input, 0);
    ScanIsSound(input, 0);
  }

  lemma NoOverlap(findings: seq<Finding>, g: Finding, h: Finding, to: nat)
    requires Ordered(findings, 0, to) && g in findings && h in findings && h.at < EndOf(h)
    ensures !(g.at < h.at < EndOf(g))
  {
    var j :| 0 <= j < |findings| && findings[j] == g;
    var k :| 0 <= k < |findings| && findings[k] == h;
  }

  /** A header that announces 64 payload bytes which never come. */
  const UNFINISHED: bytes := [SYNC_FIRST, SYNC_SECOND, 1, 1, 64, 0]

  lemma UnfinishedWaits(f: bytes)
    requires |f| < MAXIMUM_FRAME_SIZE - |UNFINISHED|
    ensures var input := UNFINISHED + f; IsCandidate(input, 0) && Judge(input) == Incomplete
  {
    hide Judge;
    var input := UNFINISHED + f;
    assert input[0] == UNFINISHED[0] && input[1] == UNFINISHED[1];
    assert input[4] == UNFINISHED[4] && input[5] == UNFINISHED[5];
    assert PayloadLength(input) == 64;
    JudgeCases(input);
  }

  lemma WaitingFromStart(input: bytes)
    requires |input| > 0 && IsCandidate(input, 0) && Judge(input) == Incomplete
    ensures Decisions(input) == [] && Feed([], input).buffer == input
  {
    hide Feed, Judge, NextCandidate, IsCandidate, Decisions, SettledBytes, Findings, Scan;
    NextCandidateIs(input, 0, 0);
    assert input[0..] == input;
    ScanStep(input, 0, 0);
    StreamIsScan(input);
    DecisionsAreScan(input);
  }

  /** The end of the stream does not look again: a whole frame behind an unfinished header is lost. */
  lemma FrameLostAtEnd(f: bytes)
    requires IsFrame(f) && |f| < MAXIMUM_FRAME_SIZE - |UNFINISHED|
    ensures FrameAt(UNFINISHED + f, |UNFINISHED|, f)
    ensures Decisions(UNFINISHED + f) == [] && Feed([], UNFINISHED + f).buffer == UNFINISHED + f
  {
    hide IsFrame, Feed, Judge, IsCandidate, Decisions;
    UnfinishedWaits(f);
    WaitingFromStart(UNFINISHED + f);
  }

  // ----- Noise reports of no bytes

  /** One of the findings is a frame followed by nothing but the first half of a sync pair. */
  ghost predicate LoneSyncLeft(s: bytes, findings: seq<Finding>) {
    exists f :: f in findings && LeavesLoneSync(s, f)
  }

  predicate LeavesLoneSync(s: bytes, f: Finding) {
    f.FrameFound? && EndOf(f) == |s| - 1 && s[EndOf(f)] == SYNC_FIRST
  }

  lemma LoneSyncInJoin(s: bytes, f: Finding, more: ScanResult)
    ensures LoneSyncLeft(s, Join([f], more).findings) <==> LeavesLoneSync(s, f) || LoneSyncLeft(s, more.findings)
  {
    hide LeavesLoneSync;
    assert forall g :: g in [f] + more.findings <==> g == f || g in more.findings;
  }

  lemma NoneLeft(s: bytes)
    ensures !LoneSyncLeft(s, [])
  {}

  lemma LoneSyncAfterFrame(s: bytes, q: nat, size: nat)
    requires q + size <= |s|
    ensures LeavesLoneSync(s, FrameFound(q, s[q..q + size])) <==> s[q + size..] == [SYNC_FIRST]
  {
    if LeavesLoneSync(s, FrameFound(q, s[q..q + size])) {
      assert s[q + size..] == [SYNC_FIRST];
    }
    if s[q + size..] == [SYNC_FIRST] {
      assert s[q + size] == s[q + size..][0];
    }
  }

  lemma {:induction false} EmptyNoiseInProcess(s: bytes, q: nat)
    requires q <= |s| && (q < |s| ==> IsCandidate(s, q))
    ensures Noise([]) in Process(s[q..]).spans <==> LoneSyncLeft(s, Scan(s, q).findings)
    decreases |s| - q
  {
    hide Judge, IsFrame, NextCandidate, Scan, Process, RealignNoise, LoneSyncLeft, LeavesLoneSync, IsCandidate, Join;
    var b := s[q..];
    NextCandidateIs(s, q, q);
    ScanStep(s, q, q);
    match Judge(b)
    case Incomplete =>
      NoneLeft(s);
      ProcessIdle([], b);
      AfterNothing(Process(b));
    case Reject(reason) =>
      var i := NextCandidate(b, 1);
      CandidateShift(s, q, 1);
      ScanFromCandidate(s, q + 1, q + i);
      assert b[i..] == s[q + i..];
      ProcessReject(b, reason);
      EmptyNoiseInProcess(s, q + i);
      LoneSyncInJoin(s, Rejection(q, reason), Scan(s, q + 1));
      NotAFrame(s, q, reason);
    case Accept(size) =>
      var rest := s[q + size..];
      var i := NextCandidate(rest, 0);
      CandidateShift(s, q + size, 0);
      ScanFromCandidate(s, q + size, q + size + i);
      assert b[size..] == rest && rest[i..] == s[q + size + i..];
      ProcessAccept(b, size);
      EmptyNoiseInProcess(s, q + size + i);
      LoneSyncInJoin(s, FrameFound(q, s[q..q + size]), Scan(s, q + size));
      LoneSyncAfterFrame(s, q, size);
      RealignIsEmpty(rest);
  }

  lemma NotAFrame(s: bytes, q: nat, reason: DecodeError)
    ensures !LeavesLoneSync(s, Rejection(q, reason))
  {}

  /** A frame behind the first byte of the buffer ends it, and the decoder comes to that frame once `x` is in. */
  ghost predicate FrameComesFree(buffer: bytes, x: byte) {
    exists i :: 0 < i < |buffer| && IsFrame(buffer[i..]) && Reached(buffer + [x], i)
  }

  lemma LoneSyncMeans(buffer: bytes, x: byte)
    requires Settled(buffer)
    ensures LoneSyncLeft(buffer + [x], Scan(buffer + [x], 0).findings) <==> x == SYNC_FIRST && FrameComesFree(buffer, x)
  {
    hide Judge, IsFrame, Scan, Reached, IsRejectReason, SyncPairAt;
    var s := buffer + [x];
    if LoneSyncLeft(s, Scan(s, 0).findings) {
      var f :| f in Scan(s, 0).findings && LeavesLoneSync(s, f);
      FoundExactlyWhen(s, f);
      assert buffer[f.at..] == s[f.at..f.at + |f.frame|] == f.frame;
      FrameStarts(f.frame);
      if f.at == 0 {
        SettledIsNoFrame(buffer);
      }
    }
    if x == SYNC_FIRST && FrameComesFree(buffer, x) {
      var i :| 0 < i < |buffer| && IsFrame(buffer[i..]) && Reached(s, i);
      var frame := buffer[i..];
      FrameAtIsAccepted(s, i, frame);
      FoundExactlyWhen(s, FrameFound(i, frame));
      assert LeavesLoneSync(s, FrameFound(i, frame));
    }
  }

  lemma SettledIsNoFrame(buffer: bytes)
    requires Settled(buffer)
    ensures !IsFrame(buffer)
  {
    hide Judge, IsFrame;
    assert buffer + [] == buffer;
    if IsFrame(buffer) {
      FrameIsAccepted(buffer, []);
    }
  }

  lemma ShortIsNoFrame(buffer: bytes, x: byte)
    requires |buffer| < 2
    ensures Noise([]) !in Push(buffer, x).spans && !FrameComesFree(buffer, x)
  {
    hide Judge, NextCandidate, Reached;
  }

  /**
   * The decoder reports noise of zero bytes exactly when a first sync byte arrives right
   * behind a frame that a rejected header had kept waiting.
   */
  lemma EmptyNoiseExactlyWhen(buffer: bytes, x: byte)
    requires Settled(buffer)
    ensures Noise([]) in Push(buffer, x).spans <==> x == SYNC_FIRST && FrameComesFree(buffer, x)
  {
    hide Judge, IsFrame, Scan, Process, FrameComesFree, LoneSyncLeft;
    if |buffer| < 2 {
      ShortIsNoFrame(buffer, x);
    } else {
      var s := buffer + [x];
      assert s[0..] == s && IsCandidate(s, 0);
      EmptyNoiseInProcess(s, 0);
      LoneSyncMeans(buffer, x);
    }
  }

  /** A header of no known version whose payload would end one byte after `f`. */
  function FalseHeader(f: bytes): (h: bytes)
    requires 5 <= |f| <= MAXIMUM_PAYLOAD_SIZE + 5
    ensures |h| == HEADER_SIZE
  {
    [SYNC_FIRST, SYNC_SECOND, 0, 0, ByteOf(|f| - 5), 0]
  }

  lemma FalseHeaderWaits(f: bytes)
    requires 5 <= |f| <= MAXIMUM_PAYLOAD_SIZE + 5
    ensures var b := FalseHeader(f) + f;
      IsCandidate(b, 0) && Judge(b) == Incomplete && Judge(b + [SYNC_FIRST]) == Reject(UnsupportedVersion)
  {
    hide Judge, CrcMatches;
    var h := FalseHeader(f);
    var b := h + f;
    var all := b + [SYNC_FIRST];
    assert forall k :: 0 <= k < 6 ==> b[k] == h[k] && all[k] == h[k];
    assert PayloadLength(b) == PayloadLength(all) == |f| - 5;
    JudgeCases(b);
    JudgeCases(all);
    assert all[..|f| + 7] == all;
  }

  lemma FalseHeaderHidesNothing(f: bytes)
    requires 5 <= |f| <= MAXIMUM_PAYLOAD_SIZE + 5
    ensures forall k :: 1 <= k < HEADER_SIZE ==> !IsCandidate(FalseHeader(f) + f + [SYNC_FIRST], k)
  {
    var h := FalseHeader(f);
    assert h[4] as int <= 64;
    assert h[4] != SYNC_FIRST;
    assert forall k :: 0 <= k < 6 ==> (h + f + [SYNC_FIRST])[k] == h[k];
    assert h[1] != SYNC_FIRST && h[2] != SYNC_FIRST && h[3] != SYNC_FIRST && h[5] != SYNC_FIRST;
  }

  lemma FrameBehindFalseHeader(f: bytes)
    requires IsFrame(f) && |f| <= MAXIMUM_PAYLOAD_SIZE + 5
    ensures |f| >= 5 && Settled(FalseHeader(f) + f) && FrameComesFree(FalseHeader(f) + f, SYNC_FIRST)
  {
    FrameStarts(f);
    var b := FalseHeader(f) + f;
    var all := b + [SYNC_FIRST];
    assert all[6] == f[0] && all[7] == f[1] && all[0..] == all && b[6..] == f;
    hide FalseHeader, IsFrame, Judge;
    FalseHeaderWaits(f);
    FalseHeaderHidesNothing(f);
    assert Reached(all, 6);
  }

  /** The report of zero bytes does occur, behind every frame short enough to hide in a false header's payload. */
  lemma EmptyNoiseOccurs(f: bytes)
    requires IsFrame(f) && |f| <= MAXIMUM_PAYLOAD_SIZE + 5
    ensures |f| >= 5 && Noise([]) in Feed([], FalseHeader(f) + f + [SYNC_FIRST]).spans
  {
    FrameBehindFalseHeader(f);
    var b := FalseHeader(f) + f;
    assert |b| > 0 && IsCandidate(b, 0) && Judge(b) == Incomplete;
    hide FalseHeader, IsFrame, Judge, Reached, FrameComesFree, Push, Decisions, IsCandidate;
    WaitingFromStart(b);
    EmptyNoiseExactlyWhen(b, SYNC_FIRST);
    FeedConcat([], b, [SYNC_FIRST]);
    FeedStep(b, [SYNC_FIRST], 0);
    assert [SYNC_FIRST][0..] == [SYNC_FIRST];
  }

  // ----- Conservation, counted

  function NoiseBytes(spans: seq<Span>): nat {
    if |spans| == 0 then 0 else (if spans[0].Noise? then |spans[0].bytes| else 0) + NoiseBytes(spans[1..])
  }

  function DroppedBytes(spans: seq<Span>): nat {
    if |spans| == 0 then 0 else (if spans[0].Dropped? then |spans[0].bytes| else 0) + DroppedBytes(spans[1..])
  }

  function FrameBytes(findings: seq<Finding>): nat {
    if |findings| == 0 then 0
    else (if findings[0].FrameFound? then |findings[0].frame| else 0) + FrameBytes(findings[1..])
  }

  function Frames(findings: seq<Finding>): nat {
    if |findings| == 0 then 0 else (if findings[0].FrameFound? then 1 else 0) + Frames(findings[1..])
  }

  lemma {:induction false} SpansAddUp(spans: seq<Span>, base: nat)
    ensures |Flatten(spans)| == NoiseBytes(spans) + DroppedBytes(spans) + FrameBytes(Findings(spans, base))
    decreases spans
  {
    if |spans| > 0 {
      SpansAddUp(spans[1..], base + |SpanBytes(spans[0])|);
      var rest := Findings(spans[1..], base + |SpanBytes(spans[0])|);
      if |FindingIn(spans[0], base)| > 0 {
        var f := FindingIn(spans[0], base)[0];
        assert Findings(spans, base) == [f] + rest;
        assert ([f] + rest)[1..] == rest;
      } else {
        assert Findings(spans, base) == rest;
      }
    }
  }

  lemma {:induction false} ProperSpansAreLong(spans: seq<Span>, base: nat)
    requires forall s :: s in spans ==> Proper(s)
    ensures var found := Findings(spans, base);
      && Frames(found) <= |found|
      && MINIMUM_FRAME_SIZE * Frames(found) <= FrameBytes(found)
      && 2 * (|found| - Frames(found)) <= DroppedBytes(spans)
    decreases spans
  {
    if |spans| > 0 {
      var head, rest := FindingIn(spans[0], base), Findings(spans[1..], base + |SpanBytes(spans[0])|);
      assert Proper(spans[0]);
      ProperSpansAreLong(spans[1..], base + |SpanBytes(spans[0])|);
      if |head| > 0 {
        assert (head + rest)[1..] == rest;
      } else {
        assert head + rest == rest;
      }
      if spans[0].Accepted? {
        FrameStarts(spans[0].frame);
      }
    }
  }

  /** Every byte pushed is noise, part of a frame, dropped by a rejection, or still buffered. */
  lemma BytesAreAccountedFor(input: bytes)
    ensures var p, found := Feed([], input), Decisions(input);
      && Flatten(p.spans) + p.buffer == input
      && NoiseBytes(p.spans) + FrameBytes(found) + DroppedBytes(p.spans) + |p.buffer| == |input|
      && MINIMUM_FRAME_SIZE * Frames(found) + 2 * (|found| - Frames(found))
         + NoiseBytes(p.spans) + |p.buffer| <= |input|
  {
    hide Feed, Flatten, Findings, Settled, Proper, NoiseBytes, DroppedBytes, FrameBytes, Frames;
    var p := Feed([], input);
    FeedConserves([], input);
    WholeIs(p);
    assert [] + input == input;
    EmptyIsSettled();
    FeedIsProper([], input);
    SpansAddUp(p.spans, 0);
    ProperSpansAreLong(p.spans, 0);
  }

  // ----- Delivery through noise

  /** Filler followed by one frame. */
  datatype Segment = Segment(gap: bytes, frame: bytes)

  predicate NoSyncPair(g: bytes) {
    forall j :: 0 <= j < |g| - 1 ==> g[j] == SYNC_FIRST ==> g[j + 1] != SYNC_SECOND
  }

  predicate Deliverable(segments: seq<Segment>) {
    forall g :: g in segments ==> NoSyncPair(g.gap) && IsFrame(g.frame)
  }

  function Assemble(segments: seq<Segment>): bytes {
    if |segments| == 0 then [] else segments[0].gap + segments[0].frame + Assemble(segments[1..])
  }

  function GapBytes(segments: seq<Segment>): nat {
    if |segments| == 0 then 0 else |segments[0].gap| + GapBytes(segments[1..])
  }

  /** The frames of the segments, where they start. */
  function Expected(segments: seq<Segment>, base: nat): seq<Finding> {
    if |segments| == 0 then []
    else
      var at := base + |segments[0].gap|;
      [FrameFound(at, segments[0].frame)] + Expected(segments[1..], at + |segments[0].frame|)
  }

  lemma GapIsSkipped(s: bytes, from: nat, gap: bytes, rest: bytes)
    requires from <= |s| && s[from..] == gap + rest && NoSyncPair(gap)
    requires |rest| >= 2 && rest[0] == SYNC_FIRST && rest[1] == SYNC_SECOND
    ensures NextCandidate(s, from) == from + |gap|
  {
    hide NextCandidate;
    var b := gap + rest;
    CandidateShift(s, from, 0);
    forall j | 0 <= j < |gap| ensures !IsCandidate(b, j) {
      if j + 1 < |gap| {
        assert b[j] == gap[j] && b[j + 1] == gap[j + 1];
      } else {
        assert b[j + 1] == rest[0];
      }
    }
    assert b[|gap|] == rest[0] && b[|gap| + 1] == rest[1];
    NextCandidateIs(b, 0, |gap|);
  }

  lemma TailIsQuiet(s: bytes, from: nat)
    requires from <= |s| && NoSyncPair(s[from..])
    ensures Scan(s, from).findings == []
  {
    hide NextCandidate, Judge;
    var i := NextCandidate(s, from);
    JudgeCases(s[i..]);
    ScanStep(s, from, i);
  }

  lemma SegmentIsFound(s: bytes, from: nat, g: Segment, rest: bytes)
    requires from <= |s| && s[from..] == g.gap + g.frame + rest && NoSyncPair(g.gap) && IsFrame(g.frame)
    ensures from + |g.gap| + |g.frame| <= |s|
    ensures Scan(s, from) == Join([FrameFound(from + |g.gap|, g.frame)], Scan(s, from + |g.gap| + |g.frame|))
  {
    hide NextCandidate, Judge, IsFrame, Scan, Join, NoSyncPair;
    var i := from + |g.gap|;
    FrameStarts(g.frame);
    assert s[from..] == g.gap + (g.frame + rest);
    GapIsSkipped(s, from, g.gap, g.frame + rest);
    assert s[i..] == s[from..][|g.gap|..] == g.frame + rest;
    FrameIsAccepted(g.frame, rest);
    assert s[i..i + |g.frame|] == s[i..][..|g.frame|] == g.frame;
    ScanStep(s, from, i);
  }

  lemma DropFront(s: bytes, from: nat, a: bytes, b: bytes)
    requires from <= |s| && s[from..] == a + b
    ensures from + |a| <= |s| && s[from + |a|..] == b
  {
    assert s[from + |a|..] == s[from..][|a|..];
  }

  lemma DeliverableParts(segments: seq<Segment>)
    requires Deliverable(segments) && |segments| > 0
    ensures NoSyncPair(segments[0].gap) && IsFrame(segments[0].frame) && Deliverable(segments[1..])
  {
    hide IsFrame, NoSyncPair;
    assert segments[0] in segments;
  }

  lemma {:induction false} SegmentsAreFound(s: bytes, from: nat, segments: seq<Segment>, tail: bytes)
    requires from <= |s| && s[from..] == Assemble(segments) + tail
    requires Deliverable(segments) && NoSyncPair(tail)
    ensures Scan(s, from).findings == Expected(segments, from)
    decreases segments
  {
    hide Scan, IsFrame, NoSyncPair, Deliverable;
    if |segments| == 0 {
      assert s[from..] == tail;
      TailIsQuiet(s, from);
    } else {
      var g, rest := segments[0], Assemble(segments[1..]) + tail;
      DeliverableParts(segments);
      ConcatAssociates(g.gap + g.frame, Assemble(segments[1..]), tail);
      SegmentIsFound(s, from, g, rest);
      var next := from + |g.gap| + |g.frame|;
      DropFront(s, from, g.gap + g.frame, rest);
      SegmentsAreFound(s, next, segments[1..], tail);
    }
  }

  lemma {:induction false} ExpectedAddsUp(segments: seq<Segment>, base: nat)
    ensures FrameBytes(Expected(segments, base)) + GapBytes(segments) == |Assemble(segments)|
    ensures forall f :: f in Expected(segments, base) ==> f.FrameFound?
    decreases segments
  {
    if |segments| > 0 {
      var at := base + |segments[0].gap|;
      var f, rest := FrameFound(at, segments[0].frame), Expected(segments[1..], at + |segments[0].frame|);
      ExpectedAddsUp(segments[1..], at + |segments[0].frame|);
      assert ([f] + rest)[1..] == rest;
    }
  }

  lemma {:induction false} NothingDropped(spans: seq<Span>, base: nat)
    requires forall f :: f in Findings(spans, base) ==> f.FrameFound?
    ensures DroppedBytes(spans) == 0
    ensures forall s :: s in spans ==> !s.Dropped?
    decreases spans
  {
    if |spans| > 0 {
      if spans[0].Dropped? {
        assert Rejection(base, spans[0].reason) in Findings(spans, base);
        assert false;
      }
      NothingDropped(spans[1..], base + |SpanBytes(spans[0])|);
    }
  }

  /**
   * Frames with any filler between them that holds no sync pair are all delivered, in order
   * and where they start, nothing is rejected, and exactly the filler is noise or left over.
   */
  lemma DeliveryThroughNoise(segments: seq<Segment>, tail: bytes)
    requires Deliverable(segments) && NoSyncPair(tail)
    ensures var input := Assemble(segments) + tail;
      var p := Feed([], input);
      && Decisions(input) == Expected(segments, 0)
      && (forall s :: s in p.spans ==> !s.Dropped?)
      && NoiseBytes(p.spans) + |p.buffer| == GapBytes(segments) + |tail|
  {
    hide Feed, Scan, Findings, Assemble, Expected, GapBytes, NoSyncPair, Deliverable;
    hide NoiseBytes, DroppedBytes, FrameBytes;
    var input := Assemble(segments) + tail;
    assert input[0..] == input;
    SegmentsAreFound(input, 0, segments, tail);
    DecisionsAreScan(input);
    ExpectedAddsUp(segments, 0);
    NothingDropped(Feed([], input).spans, 0);
    BytesAreAccountedFor(input);
  }
}
