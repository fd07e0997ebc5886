/** Everything the ground processor complains about, told from the received bytes. */
module GroundReports {
  import opened Bytes
  import opened FrameCodec
  import opened StreamMachine
  import opened BatchScanner
  import opened StreamGuarantees
  import opened GroundClient
  import opened CleanStreams
  import opened WireFormat
  import CommandCodec
  import TelemetryCodec

  /** What a delivered frame gives cause to complain about: its type, its length, a byte out of range. */
  function FrameComplaint(f: bytes): seq<Complaint>
    requires |f| >= 12
  {
    if f[3] == 0x01 then
      if |f| == 31 && f[18] <= 2 && Four(f, 25) < 8 then [] else [MalformedTelemetry]
    else if f[3] == 0x11 then
      if |f| == 14 && 1 <= f[10] <= 3 && f[11] <= 3 then [] else [MalformedAck]
    else [UnexpectedCommand]
  }

  function FindingComplaint(f: Finding): seq<Complaint> {
    match f
    case Rejection(_, _) => [FrameRefused]
    case FrameFound(_, frame) => if |frame| >= 12 then FrameComplaint(frame) else [MalformedFrame]
  }

  function FindingComplaints(findings: seq<Finding>): seq<Complaint> {
    if |findings| == 0 then [] else FindingComplaint(findings[0]) + FindingComplaints(findings[1..])
  }

  /** The complaints other than those about noise. */
  function NotNoise(complaints: seq<Complaint>): seq<Complaint> {
    if |complaints| == 0 then []
    else (if complaints[0].NoiseDropped? then [] else [complaints[0]]) + NotNoise(complaints[1..])
  }

  /** How many bytes of noise are complained about. */
  function NoiseComplained(complaints: seq<Complaint>): nat {
    if |complaints| == 0 then 0
    else (if complaints[0].NoiseDropped? then complaints[0].count else 0) + NoiseComplained(complaints[1..])
  }

  lemma {:induction false} NotNoiseConcat(a: seq<Complaint>, b: seq<Complaint>)
    ensures NotNoise(a + b) == NotNoise(a) + NotNoise(b)
    ensures NoiseComplained(a + b) == NoiseComplained(a) + NoiseComplained(b)
    decreases a
  {
    if |a| == 0 {
      assert a + b == b;
    } else {
      assert (a + b)[1..] == a[1..] + b && (a + b)[0] == a[0];
      NotNoiseConcat(a[1..], b);
    }
  }

  lemma FrameOutcomeComplains(f: bytes)
    requires IsFrame(f)
    ensures |f| >= 12
    ensures var o := FrameOutcome(f);
      FrameComplaint(f) == if o.Complained? then [o.complaint] else []
  {
    DecodedHead(f);
    TelemetryDecodeFailsExactlyWhen(f);
    AckDecodeFailsExactlyWhen(f);
    hide Decoded, TelemetryCodec.DecodedTelemetry, CommandCodec.DecodedAck, Four;
  }

  /** What one span makes the processor complain about. */
  function SpanComplaint(s: Span): seq<Complaint> {
    var o := EventOutcome(EventOf(s));
    if o.Complained? then [o.complaint] else []
  }

  lemma SpanComplaintIs(s: Span, at: nat)
    requires Proper(s)
    ensures NotNoise(SpanComplaint(s)) == FindingComplaints(FindingIn(s, at))
    ensures NoiseComplained(SpanComplaint(s)) == if s.Noise? then |s.bytes| else 0
  {
    hide FrameOutcome, IsFrame, FrameComplaint;
    var c := SpanComplaint(s);
    if s.Accepted? {
      FrameOutcomeComplains(s.frame);
      NeverNoise(s.frame);
    }
    if |c| > 0 {
      assert c == [c[0]] && c[1..] == [];
    }
    if |FindingIn(s, at)| > 0 {
      assert FindingIn(s, at)[1..] == [];
      assert FindingComplaints(FindingIn(s, at)) == FindingComplaint(FindingIn(s, at)[0]) + [];
    }
  }

  lemma NeverNoise(f: bytes)
    requires |f| >= 12
    ensures |FrameComplaint(f)| <= 1 && forall c :: c in FrameComplaint(f) ==> !c.NoiseDropped?
  {
    hide Four;
  }

  lemma {:induction false} FindingComplaintsConcat(a: seq<Finding>, b: seq<Finding>)
    ensures FindingComplaints(a + b) == FindingComplaints(a) + FindingComplaints(b)
    decreases a
  {
    hide FindingComplaint;
    if |a| == 0 {
      assert a + b == b;
    } else {
      assert (a + b)[1..] == a[1..] + b && (a + b)[0] == a[0];
      FindingComplaintsConcat(a[1..], b);
    }
  }

  lemma FirstComplaint(spans: seq<Span>)
    requires |spans| > 0
    ensures Complaints(Outcomes(Events(spans))) == SpanComplaint(spans[0]) + Complaints(Outcomes(Events(spans[1..])))
  {
    hide EventOutcome, Complaints, Lines;
    var o := EventOutcome(EventOf(spans[0]));
    assert Outcomes(Events(spans)) == [o] + Outcomes(Events(spans[1..]));
    LinesConcat([o], Outcomes(Events(spans[1..])));
    OneOutcome(o);
  }

  lemma {:induction false} SpansComplained(spans: seq<Span>, base: nat)
    requires forall s :: s in spans ==> Proper(s)
    ensures var complaints := Complaints(Outcomes(Events(spans)));
      && NotNoise(complaints) == FindingComplaints(Findings(spans, base))
      && NoiseComplained(complaints) == NoiseBytes(spans)
    decreases spans
  {
    if |spans| == 0 {
      NothingComplained();
    } else {
      var rest, next := spans[1..], base + |SpanBytes(spans[0])|;
      assert Findings(spans, base) == FindingIn(spans[0], base) + Findings(rest, next);
      assert NoiseBytes(spans) == (if spans[0].Noise? then |spans[0].bytes| else 0) + NoiseBytes(rest);
      assert Proper(spans[0]);
      hide Proper, Findings, NoiseBytes, Complaints, Outcomes, Events, SpanComplaint, NotNoise, NoiseComplained;
      hide FindingComplaints, FindingIn;
      SpansComplained(rest, next);
      FirstComplaint(spans);
      SpanComplaintIs(spans[0], base);
      NotNoiseConcat(SpanComplaint(spans[0]), Complaints(Outcomes(Events(rest))));
      FindingComplaintsConcat(FindingIn(spans[0], base), Findings(rest, next));
    }
  }

  lemma NothingComplained()
    ensures Complaints(Outcomes(Events([]))) == []
  {}

  /**
   * The complaints of a whole session, for every input: apart from noise exactly those the
   * decisions call for, in order, and one about the end if bytes are left; and of noise
   * exactly as many bytes as the decoder discarded as noise.
   */
  lemma ComplaintsExactlyWhen(input: bytes)
    ensures var complaints, p := Complaints(Session(input)), Feed([], input);
      && NotNoise(complaints) ==
         FindingComplaints(Decisions(input)) + (if SettledBytes(input) < |input| then [TruncatedAtEnd] else [])
      && NoiseComplained(complaints) + FrameBytes(Decisions(input)) + DroppedBytes(p.spans) + |p.buffer| == |input|
  {
    var p := Feed([], input);
    var tail := if p.buffer == [] then [] else [TruncatedAtEnd];
    assert SettledBytes(input) == |input| - |p.buffer|;
    assert Decisions(input) == Findings(p.spans, 0);
    assert Progressed(input) == Outcomes(Events(p.spans));
    TailIsNotNoise();
    hide Feed, Decisions, SettledBytes, Progressed, Complaints, Outcomes, Events, NotNoise, NoiseComplained, Session;
    hide Settled, Proper, Findings, NoiseBytes, FrameBytes, DroppedBytes, FindingComplaints;
    EmptyIsSettled();
    FeedIsProper([], input);
    SpansComplained(p.spans, 0);
    SessionEnds(input);
    NotNoiseConcat(Complaints(Progressed(input)), tail);
    BytesAreAccountedFor(input);
  }

  lemma TailIsNotNoise()
    ensures NotNoise([]) == [] && NotNoise([TruncatedAtEnd]) == [TruncatedAtEnd]
    ensures NoiseComplained([]) == 0 && NoiseComplained([TruncatedAtEnd]) == 0
  {}
}
