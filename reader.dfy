/** The global copy of the reader in src/main.cpp: the frame buffer, the cursor,
    the trailer countdown, the time of the last reset and the current state are
    globals that the state handlers update in place. Here they are the fields of
    one object. The bytes waiting on the serial line are the field `input`, and
    every call to `publisher.publish` is recorded in `published`. */
module SmlReader {
  import opened Base
  import opened Framing
  import opened Crc16
  import opened Obis

  /** The checksum test of `process_message`: the CRC of everything but the last
      two bytes equals those two bytes read least significant first. */
  predicate ChecksumOk(buf: seq<byte>, position: nat)
    requires 2 <= position <= |buf|
  {
    X25(buf[..position - 2]) == Word(buf[position - 2], buf[position - 1])
  }

  /** What `process_message` publishes for a complete frame: nothing when the
      checksum does not match, and otherwise the readings of all metrics, once. */
  function Publication(buf: seq<byte>, position: nat, metrics: seq<Metric>): (r: seq<seq<Option<MetricValue>>>)
    requires 2 <= position <= |buf|
    requires ChecksumOk(buf, position) ==> Decodes(buf, position, metrics)
    ensures |r| <= 1
    ensures r != [] <==> ChecksumOk(buf, position)
    ensures r != [] ==> |r[0]| == |metrics|
    ensures r != [] ==> forall i :: 0 <= i < |metrics| ==> r[0][i] == Reading(buf, position, metrics[i])
  {
    if ChecksumOk(buf, position) then
      ReadingsAt(buf, position, metrics);
      [Readings(buf, position, metrics)]
    else []
  }

  class Reader {
    /** `buffer`: the frame being assembled. */
    const buffer: array<byte>
    /** `METRICS`: the patterns the decoder looks for. */
    const metrics: seq<Metric>
    /** `position`: the cursor into `buffer`. */
    var position: nat
    /** `last_state_reset`: `millis()` at the last entry into the wait state. */
    var lastStateReset: uint32
    /** `bytes_until_checksum`: trailer bytes still to read. */
    var bytesUntilChecksum: nat
    /** `state`: the current handler; `Init` is the null pointer. */
    var state: Phase
    /** The bytes available on the serial line. */
    var input: seq<byte>
    /** Every `values` array handed to the publisher, oldest first. */
    var published: seq<seq<Option<MetricValue>>>

    /** The machine state in the terms of the framing model. */
    ghost function Snapshot(): Scanner
      reads this, buffer
    {
      Scanner(state, buffer[..], position, bytesUntilChecksum, lastStateReset)
    }

    /** The framing invariant holds, and the metric loop's `uint8_t` counter can
        reach the number of metrics. */
    ghost predicate Valid()
      reads this, buffer
    {
      Inv(Snapshot()) && |metrics| < 256
    }

    /** The globals as the program starts: a zeroed buffer, the cursor at 0 and
        no state yet. */
    constructor (metrics: seq<Metric>, input: seq<byte>)
      requires |metrics| < 256
      ensures Valid() && state == Phase.Init && position == 0
      ensures lastStateReset == 0 && bytesUntilChecksum == 0
      ensures buffer[..] == seq(BufferSize, _ => 0)
      ensures this.metrics == metrics && this.input == input && published == []
    {
      buffer := new byte[BufferSize](_ => 0);
      this.metrics := metrics;
      position := 0;
      lastStateReset := 0;
      bytesUntilChecksum := 0;
      state := Phase.Init;
      this.input := input;
      published := [];
    }

    /** `set_state`. */
    method SetState(p: Phase, now: uint32)
      modifies this
      ensures Snapshot() == Framing.SetState(old(Snapshot()), p, now)
      ensures input == old(input) && published == old(published)
    {
      if p == Phase.WaitForStart {
        lastStateReset := now;
        position := 0;
      } else if p == Phase.ReadChecksum {
        bytesUntilChecksum := TrailerSize;
      }
      state := p;
    }

    /** `reset`: the message argument is only logged. */
    method Reset(now: uint32)
      modifies this
      ensures Snapshot() == Framing.Reset(old(Snapshot()), now)
      ensures input == old(input) && published == old(published)
    {
      SetState(Phase.WaitForStart, now);
    }

    /** `wait_for_start_sequence`. */
    method WaitForStartSequence(now: uint32)
      requires Valid() && state == Phase.WaitForStart
      modifies this, buffer
      ensures Valid() && state in {Phase.WaitForStart, Phase.ReadMessage}
      ensures Step(Snapshot(), input) == WaitSpec(old(Snapshot()), now, old(input))
      ensures published == old(published)
    {
      WaitKeepsInv(Snapshot(), now, input);
      ghost var goal := WaitSpec(Snapshot(), now, input);
      while input != []
        invariant state == Phase.WaitForStart && position < |Start| && buffer.Length == BufferSize
        invariant WaitSpec(Snapshot(), now, input) == goal
        invariant published == old(published)
        decreases |input|
      {
        ghost var s := Snapshot();
        buffer[position] := input[0];
        input, position := input[1..], if buffer[position] == Start[position] then position + 1 else 0;
        assert Snapshot() == s.(buf := s.buf[s.position := buffer[s.position]],
                                position := NextMatch(s.position, buffer[s.position]));
        if position == |Start| {
          SetState(Phase.ReadMessage, now);
          return;
        }
      }
    }

    /** `read_message`. */
    method ReadMessage(now: uint32)
      requires Valid() && state == Phase.ReadMessage
      modifies this, buffer
      ensures Valid() && state in {Phase.ReadMessage, Phase.ReadChecksum, Phase.WaitForStart}
      ensures Step(Snapshot(), input) == ReadMessageSpec(old(Snapshot()), now, old(input))
      ensures published == old(published)
    {
      ReadMessageKeepsInv(Snapshot(), now, input);
      ghost var goal := ReadMessageSpec(Snapshot(), now, input);
      while input != []
        invariant state == Phase.ReadMessage && buffer.Length == BufferSize
        invariant |Start| <= position <= BufferSize - TrailerSize
        invariant ReadMessageSpec(Snapshot(), now, input) == goal
        invariant published == old(published)
        decreases |input|
      {
        if position + TrailerSize == BufferSize {
          ReadMessageFull(Snapshot(), now, input);
          Reset(now);
          return;
        }
        ghost var s, rest := Snapshot(), input;
        buffer[position] := input[0];
        input, position := input[1..], position + 1;
        assert Snapshot() == s.(buf := s.buf[s.position := rest[0]], position := s.position + 1);
        var found := EndSequenceFound(buffer, position);
        if found {
          ReadMessageEnds(s, now, rest);
          SetState(Phase.ReadChecksum, now);
          return;
        }
        ReadMessageStep(s, now, rest);
      }
    }

    /** `read_checksum`. */
    method ReadChecksum(now: uint32)
      requires Valid() && state == Phase.ReadChecksum
      modifies this, buffer
      ensures Valid() && state in {Phase.ReadChecksum, Phase.ProcessMessage}
      ensures Step(Snapshot(), input) == ReadChecksumSpec(old(Snapshot()), now, old(input))
      ensures published == old(published)
    {
      ReadChecksumKeepsInv(Snapshot(), now, input);
      ghost var s0 := Snapshot();
      ghost var goal := TrailerSpec(Snapshot(), input);
      while bytesUntilChecksum > 0 && input != []
        invariant state == Phase.ReadChecksum && buffer.Length == BufferSize
        invariant position + bytesUntilChecksum <= BufferSize
        invariant lastStateReset == s0.lastReset
        invariant TrailerSpec(Snapshot(), input) == goal
        invariant published == old(published)
        decreases |input|
      {
        ghost var s, rest := Snapshot(), input;
        TrailerStep(s, rest);
        buffer[position] := input[0];
        input, position, bytesUntilChecksum := input[1..], position + 1, bytesUntilChecksum - 1;
        assert Snapshot() == s.(buf := s.buf[s.position := rest[0]], position := s.position + 1,
                                untilChecksum := s.untilChecksum - 1);
      }
      assert TrailerSpec(Snapshot(), input) == Step(Snapshot(), input);
      if bytesUntilChecksum == 0 {
        SetState(Phase.ProcessMessage, now);
      }
    }

    /** `process_message`: check the frame, decode every metric, publish the
        values and start over; a frame whose checksum does not match is dropped. */
    method ProcessMessage(now: uint32)
      requires Valid() && state == Phase.ProcessMessage
      requires ChecksumOk(buffer[..], position) ==> Decodes(buffer[..], position, metrics)
      modifies this
      ensures Valid()
      ensures Snapshot() == Framing.Reset(old(Snapshot()), now) && input == old(input)
      ensures published == old(published) + Publication(old(buffer[..]), old(position), metrics)
    {
      var calculated := X25(buffer[..position - 2]);
      var given := Word(buffer[position - 2], buffer[position - 1]);
      if calculated != given {
        Reset(now);
        return;
      }
      var values := DecodeMetrics(buffer, position, metrics);
      published := published + [values];
      Reset(now);
    }

    /** `run_current_state`, with `now` the value of `millis()` in this tick. */
    method RunCurrentState(now: uint32)
      requires Valid()
      requires state == Phase.ProcessMessage && !TimedOut(now, lastStateReset) && ChecksumOk(buffer[..], position)
               ==> Decodes(buffer[..], position, metrics)
      modifies this, buffer
      ensures Valid()
      ensures var o := Tick(old(Snapshot()), now, old(input));
        Snapshot() == o.next && input == o.rest &&
        published == old(published) +
          (if o.processed.Some? then Publication(old(buffer[..]), old(position), metrics) else [])
    {
      if state != Phase.Init {
        if TimedOut(now, lastStateReset) {
          Reset(now);
        }
        if state == Phase.WaitForStart {
          WaitForStartSequence(now);
        } else if state == Phase.ReadMessage {
          ReadMessage(now);
        } else if state == Phase.ReadChecksum {
          ReadChecksum(now);
        } else {
          ProcessMessage(now);
        }
      }
    }
  }

  /** A frame passes the checksum test exactly when folding all of it into the
      CRC register leaves the good FCS of RFC 1662. */
  lemma ChecksumOkIffGoodFcs(buf: seq<byte>, position: nat)
    requires 2 <= position <= |buf|
    ensures ChecksumOk(buf, position) <==> Fcs(InitFcs, buf[..position]) == GoodFcs
  {
    var frame := buf[..position];
    assert frame[..|frame| - 2] == buf[..position - 2];
    CheckIffGoodResidue(frame);
  }

  /** A frame whose last two bytes are its CRC, least significant first, passes
      the checksum test, and changing either of those bytes makes it fail. */
  lemma SealedFrameIsAccepted(buf: seq<byte>, position: nat)
    requires 2 <= position <= |buf|
    ensures var crc := X25(buf[..position - 2]);
      ChecksumOk(buf, position) <==> buf[position - 2] == Low(crc) && buf[position - 1] == High(crc)
  {
    var crc := X25(buf[..position - 2]);
    WordOfOctets(crc);
  }

  /** A well-formed frame whose trailer is a fill byte followed by the CRC of
      everything before the CRC, least significant byte first, is complete after
      three ticks and passes the checksum test in the fourth, so it is published
      when it arrives within the timeout. */
  lemma SealedFrameIsPublished(s: Scanner, m: seq<byte>, fill: byte, more: seq<byte>,
                               t1: uint32, t2: uint32, t3: uint32, t4: uint32)
    requires Inv(s) && s.phase == WaitForStart && s.position == 0 && WellFormedBody(m)
    requires !TimedOut(t1, s.lastReset) && !TimedOut(t2, s.lastReset)
    requires !TimedOut(t3, s.lastReset) && !TimedOut(t4, s.lastReset)
    ensures var crc := X25(Start + m + [fill]);
      var trailer := [fill, Low(crc), High(crc)];
      var o1 := Tick(s, t1, Start + m + trailer + more);
      var o2 := Tick(o1.next, t2, o1.rest);
      var o3 := Tick(o2.next, t3, o2.rest);
      var o4 := Tick(o3.next, t4, o3.rest);
      o4.processed == Some(|Start + m + trailer|) && o3.next.position == |Start + m + trailer| &&
      ChecksumOk(o3.next.buf, o3.next.position)
  {
    var crc := X25(Start + m + [fill]);
    var trailer := [fill, Low(crc), High(crc)];
    var frame := Start + m + trailer;
    FrameIsProcessed(s, m, trailer, more, t1, t2, t3, t4);
    var o1 := Tick(s, t1, Start + m + trailer + more);
    var o2 := Tick(o1.next, t2, o1.rest);
    var o3 := Tick(o2.next, t3, o2.rest);
    var buf := o3.next.buf;
    var n := |frame|;
    assert buf[..n - 2] == buf[..n][..n - 2] == Start + m + [fill];
    assert buf[n - 2] == buf[..n][n - 2] == Low(crc);
    assert buf[n - 1] == buf[..n][n - 1] == High(crc);
    SealedFrameIsAccepted(buf, n);
  }
}
