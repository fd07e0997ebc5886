/** The byte-at-a-time decoder with its fixed buffer. The handler calls are returned, in order. */
module FrameStreamDecoder {
  import opened Bytes
  import opened FrameCodec
  import opened StreamMachine

  class Decoder {
    const buffer: array<byte>
    var size: nat
    var expectedSize: nat

    /** Room for any frame, and a count that fits: what holds even in the middle of a push. */
    ghost predicate Sized()
      reads this
    {
      buffer.Length == MAXIMUM_FRAME_SIZE && size <= buffer.Length
    }

    ghost function Buffered(): bytes
      requires Sized()
      reads this, buffer
    {
      buffer[..size]
    }

    /** Between pushes a frame is never complete, and the expected size is known once the header is. */
    ghost predicate Valid()
      reads this, buffer
    {
      && Sized()
      && size < MAXIMUM_FRAME_SIZE
      && Settled(Buffered())
      && expectedSize == ExpectedSize(Buffered())
    }

    constructor ()
      ensures Valid() && Buffered() == [] && fresh(buffer)
    {
      buffer := new byte[MAXIMUM_FRAME_SIZE](_ => 0);
      size := 0;
      expectedSize := 0;
    }

    method PushBytes(input: seq<byte>) returns (events: seq<StreamEvent>)
      requires Valid()
      modifies this, buffer
      ensures Valid()
      ensures Buffered() == Feed(old(Buffered()), input).buffer
      ensures events == Events(Feed(old(Buffered()), input).spans)
    {
      hide Feed, Push, Events, Settled;
      NoEvents();
      events := [];
      ghost var spans: seq<Span> := [];
      ghost var start := Buffered();
      AfterNothing(Feed(start, input));
      for k := 0 to |input|
        invariant Valid()
        invariant events == Events(spans)
        invariant Feed(start, input) == After(spans, Feed(Buffered(), input[k..]))
      {
        ghost var p := Push(Buffered(), input[k]);
        FeedStep(Buffered(), input, k);
        var more := PushByte(input[k]);
        AfterTwice(spans, p.spans, Feed(p.buffer, input[k + 1..]));
        EventsConcat(spans, p.spans);
        spans := spans + p.spans;
        events := events + more;
      }
      assert input[|input|..] == [];
      FeedNothing(spans, Buffered());
    }

    method Finish() returns (events: seq<StreamEvent>)
      requires Valid()
      modifies this
      ensures Valid() && Buffered() == []
      ensures events == if old(Buffered()) == [] then [] else [StreamTruncated(old(Buffered()))]
    {
      if size == 0 {
        return [];
      }
      events := [StreamTruncated(buffer[..size])];
      size := 0;
      expectedSize := 0;
    }

    method PushByte(x: byte) returns (events: seq<StreamEvent>)
      requires Valid()
      modifies this, buffer
      ensures Valid()
      ensures Buffered() == Push(old(Buffered()), x).buffer
      ensures events == Events(Push(old(Buffered()), x).spans)
    {
      ghost var b := Buffered() + [x];
      if size == 0 {
        NextCandidateIs(b, 0, if x == SYNC_FIRST then 0 else 1);
        if x == SYNC_FIRST {
          buffer[0] := x;
          size := 1;
          events := [];
        } else {
          events := [NoiseDiscarded(1)];
        }
        return;
      }
      if size == 1 {
        NextCandidateIs(b, 0, if x == SYNC_SECOND then 0 else if x == SYNC_FIRST then 1 else 2);
        if x == SYNC_SECOND {
          buffer[1] := x;
          size := 2;
          events := [];
        } else if x == SYNC_FIRST {
          events := [NoiseDiscarded(1)];
        } else {
          size := 0;
          events := [NoiseDiscarded(2)];
        }
        return;
      }
      buffer[size] := x;
      size := size + 1;
      assert Buffered() == b;
      events := ProcessBuffer();
    }

    method ProcessBuffer() returns (events: seq<StreamEvent>)
      requires Sized() && 2 < size && IsCandidate(Buffered(), 0)
      requires size < HEADER_SIZE ==> expectedSize == 0
      modifies this, buffer
      ensures Valid()
      ensures Buffered() == Process(old(Buffered())).buffer
      ensures events == Events(Process(old(Buffered())).spans)
    {
      hide Judge, Process, Events;
      events := [];
      ghost var spans: seq<Span> := [];
      ghost var start := Buffered();
      NoEvents();
      AfterNothing(Process(start));
      var again := true;
      while again
        invariant Sized()
        invariant size > 0 ==> IsCandidate(Buffered(), 0)
        invariant size < HEADER_SIZE ==> expectedSize == 0
        invariant !again ==> Valid()
        invariant events == Events(spans)
        invariant Process(start) == After(spans, Process(Buffered()))
        decreases again, size
      {
        ghost var b := Buffered();
        var more: seq<StreamEvent>;
        ghost var settled: seq<Span>;
        more, again, settled := Turn();
        AfterTwice(spans, settled, Process(Buffered()));
        EventsConcat(spans, settled);
        spans := spans + settled;
        events := events + more;
      }
      ProcessIdle(spans, Buffered());
    }

    /** One turn of the processing loop; `again` says whether the loop goes round once more. */
    method Turn() returns (events: seq<StreamEvent>, again: bool, ghost settled: seq<Span>)
      requires Sized()
      requires size > 0 ==> IsCandidate(Buffered(), 0)
      requires size < HEADER_SIZE ==> expectedSize == 0
      modifies this, buffer
      ensures Sized()
      ensures size > 0 ==> IsCandidate(Buffered(), 0)
      ensures size < HEADER_SIZE ==> expectedSize == 0
      ensures if again then size < old(size) else Valid()
      ensures events == Events(settled)
      ensures Process(old(Buffered())) == After(settled, Process(Buffered()))
    {
      hide Judge, Process, Decoded, NextCandidate, RealignNoise, Events, IsFrame;
      ghost var b := Buffered();
      JudgeCases(b);
      NoEvents();
      AfterNothing(Process(b));
      if size < HEADER_SIZE {
        return [], false, [];
      }
      var payloadLength := PayloadLength(buffer[..size]);
      if payloadLength > MAXIMUM_PAYLOAD_SIZE {
        events, again, settled := RejectAndGoOn(PayloadTooLarge);
        return;
      }
      expectedSize := MINIMUM_FRAME_SIZE + payloadLength;
      if size < expectedSize {
        return [], false, [];
      }
      var decoded := Decode(buffer[..expectedSize]);
      assert buffer[..expectedSize] == b[..expectedSize];
      if decoded.Failure? {
        events, again, settled := RejectAndGoOn(decoded.error);
        return;
      }
      ProcessAccept(b, expectedSize);
      settled := [Accepted(b[..expectedSize])] + RealignNoise(b[expectedSize..]);
      events := TakeFrame();
      again := size >= HEADER_SIZE;
      JudgeCases(Buffered());
    }

    method RejectAndGoOn(reason: DecodeError) returns (events: seq<StreamEvent>, again: bool, ghost settled: seq<Span>)
      requires Sized() && 2 <= size && Judge(Buffered()) == Reject(reason)
      modifies this, buffer
      ensures Sized() && size < old(size)
      ensures size > 0 ==> IsCandidate(Buffered(), 0)
      ensures size < HEADER_SIZE ==> expectedSize == 0
      ensures !again ==> Valid()
      ensures events == Events(settled)
      ensures Process(old(Buffered())) == After(settled, Process(Buffered()))
    {
      hide Judge, Process, NextCandidate, Events;
      ghost var b := Buffered();
      ProcessReject(b, reason);
      settled := [Dropped(b[..NextCandidate(b, 1)], reason, b)];
      var event := RejectBuffer(reason);
      events := [event];
      again := size >= HEADER_SIZE;
      JudgeCases(Buffered());
    }

    /** Hands over the frame at the front of the buffer and realigns what follows it. */
    method TakeFrame() returns (events: seq<StreamEvent>)
      requires Sized() && 0 < expectedSize <= size
      modifies this, buffer
      ensures Sized() && expectedSize == 0 && size < old(size)
      ensures size > 0 ==> IsCandidate(Buffered(), 0)
      ensures var frame, rest := old(Buffered()[..expectedSize]), old(Buffered()[expectedSize..]);
        && Buffered() == rest[NextCandidate(rest, 0)..]
        && events == [FrameDecoded(frame)] + Events(RealignNoise(rest))
    {
      hide NextCandidate, RealignNoise, Events;
      ghost var rest := Buffered()[expectedSize..];
      assert buffer[..expectedSize] == Buffered()[..expectedSize];
      events := [FrameDecoded(buffer[..expectedSize])];
      MoveDown(expectedSize);
      expectedSize := 0;
      assert Buffered() == rest;
      var noise := AlignToSync();
      events := events + noise;
      CandidateInFront(rest, NextCandidate(rest, 0));
    }

    method RejectBuffer(reason: DecodeError) returns (event: StreamEvent)
      requires Sized() && 2 <= size
      modifies this, buffer
      ensures Sized() && expectedSize == 0 && size < old(size)
      ensures size > 0 ==> IsCandidate(Buffered(), 0)
      ensures Buffered() == old(Buffered()[NextCandidate(Buffered(), 1)..])
      ensures event == FrameRejected(reason, old(Buffered()))
    {
      hide NextCandidate;
      ghost var b := Buffered();
      event := FrameRejected(reason, buffer[..size]);
      Rescan();
      CandidateInFront(b, NextCandidate(b, 1));
    }

    /** Looks for the next sync pair after the first byte and drops everything before it. */
    method Rescan()
      requires Sized() && 2 <= size
      modifies this, buffer
      ensures Sized() && expectedSize == 0
      ensures Buffered() == old(Buffered()[NextCandidate(Buffered(), 1)..])
    {
      var syncOffset := FindSync(1);
      ghost var b := Buffered();
      if syncOffset < size {
        NextCandidateIs(b, 1, syncOffset);
        MoveDown(syncOffset);
      } else if buffer[size - 1] == SYNC_FIRST {
        NextCandidateIs(b, 1, size - 1);
        buffer[0] := SYNC_FIRST;
        size := 1;
      } else {
        NextCandidateIs(b, 1, size);
        size := 0;
      }
      expectedSize := 0;
    }

    method AlignToSync() returns (events: seq<StreamEvent>)
      requires Sized()
      modifies this`size, buffer
      ensures Sized()
      ensures Buffered() == old(Buffered()[NextCandidate(Buffered(), 0)..])
      ensures events == Events(RealignNoise(old(Buffered())))
    {
      if size == 0 {
        return [];
      }
      var syncOffset := FindSync(0);
      ghost var b := Buffered();
      if syncOffset < size {
        NextCandidateIs(b, 0, syncOffset);
        events := [];
        if syncOffset > 0 {
          events := [NoiseDiscarded(syncOffset)];
          MoveDown(syncOffset);
        }
      } else if buffer[size - 1] == SYNC_FIRST {
        NextCandidateIs(b, 0, size - 1);
        events := [NoiseDiscarded(size - 1)];
        buffer[0] := SYNC_FIRST;
        size := 1;
      } else {
        NextCandidateIs(b, 0, size);
        events := [NoiseDiscarded(size)];
        size := 0;
      }
    }

    /** The offset of the first whole sync pair at or after `from`, or `size` if there is none. */
    method FindSync(from: nat) returns (offset: nat)
      requires Sized()
      ensures offset == size || (from <= offset < size - 1 && IsCandidate(Buffered(), offset))
      ensures forall j :: from <= j < offset && j + 1 < size ==> !IsCandidate(Buffered(), j)
    {
      offset := size;
      var index := from;
      while index + 1 < size
        invariant from <= index
        invariant forall j :: from <= j < index && j + 1 < size ==> !IsCandidate(Buffered(), j)
      {
        if buffer[index] == SYNC_FIRST && buffer[index + 1] == SYNC_SECOND {
          return index;
        }
        index := index + 1;
      }
    }

    /** Copies everything from `offset` on to the front of the buffer. */
    method MoveDown(offset: nat)
      requires Sized() && offset <= size
      modifies this`size, buffer
      ensures Sized() && Buffered() == old(Buffered())[offset..]
    {
      var retained := size - offset;
      forall k | 0 <= k < retained {
        buffer[k] := buffer[offset + k];
      }
      size := retained;
    }
  }

  ghost function ExpectedSize(b: bytes): nat {
    if |b| < HEADER_SIZE then 0 else MINIMUM_FRAME_SIZE + PayloadLength(b)
  }
}
