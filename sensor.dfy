/** Class `Sensor` of src/Sensor.h: the same framing machine as the global
    reader, one instance per meter, with an explicit state enumeration whose
    `INIT` state does nothing. It checks no checksum: a complete frame is handed
    to the callback as it is. The bytes waiting on the instance's serial line
    are the field `input`, and every call of the callback is recorded in
    `delivered` as the bytes it was given. */
module SensorMachine {
  import opened Base
  import opened Framing

  class Sensor {
    /** `buffer`: the frame being assembled. */
    const buffer: array<byte>
    /** Whether `callback` is non-null. */
    const hasCallback: bool
    /** `position`: the cursor into `buffer`. */
    var position: nat
    /** `last_state_reset`: `millis()` at the last entry into the wait state. */
    var lastStateReset: uint32
    /** `bytes_until_checksum`: trailer bytes still to read. */
    var bytesUntilChecksum: nat
    /** `state`. */
    var state: Phase
    /** The bytes available on the serial line. */
    var input: seq<byte>
    /** The first `len` bytes of `buffer` at every call of the callback, oldest first. */
    var delivered: seq<seq<byte>>

    /** The machine state in the terms of the framing model. */
    ghost function Snapshot(): Scanner
      reads this, buffer
    {
      Scanner(state, buffer[..], position, bytesUntilChecksum, lastStateReset)
    }

    /** The framing invariant. */
    ghost predicate Valid()
      reads this, buffer
    {
      Inv(Snapshot())
    }

    /** The constructor: the member initialisers, then `init_state`, which
        starts the machine at time `now`. */
    constructor (hasCallback: bool, now: uint32, input: seq<byte>)
      ensures Valid() && state == Phase.WaitForStart && position == 0 && lastStateReset == now
      ensures bytesUntilChecksum == 0 && fresh(buffer)
      ensures this.hasCallback == hasCallback && this.input == input && delivered == []
    {
      buffer := new byte[BufferSize];
      this.hasCallback := hasCallback;
      position := 0;
      lastStateReset := 0;
      bytesUntilChecksum := 0;
      state := Phase.Init;
      this.input := input;
      delivered := [];
      new;
      InitState(now);
    }

    /** `set_state`. */
    method SetState(p: Phase, now: uint32)
      modifies this
      ensures Snapshot() == Framing.SetState(old(Snapshot()), p, now)
      ensures input == old(input) && delivered == old(delivered)
    {
      if p == Phase.WaitForStart {
        lastStateReset := now;
        position := 0;
      } else if p == Phase.ReadChecksum {
        bytesUntilChecksum := TrailerSize;
      }
      state := p;
    }

    /** `init_state`. */
    method InitState(now: uint32)
      modifies this
      ensures Snapshot() == Framing.Reset(old(Snapshot()), now)
      ensures input == old(input) && delivered == old(delivered)
    {
      SetState(Phase.WaitForStart, now);
    }

    /** `reset_state`: the message argument is only logged. */
    method ResetState(now: uint32)
      modifies this
      ensures Snapshot() == Framing.Reset(old(Snapshot()), now)
      ensures input == old(input) && delivered == old(delivered)
    {
      InitState(now);
    }

    /** `wait_for_start_sequence`. */
    method WaitForStartSequence(now: uint32)
      requires Valid() && state == Phase.WaitForStart
      modifies this, buffer
      ensures Valid() && state in {Phase.WaitForStart, Phase.ReadMessage}
      ensures Step(Snapshot(), input) == WaitSpec(old(Snapshot()), now, old(input))
      ensures delivered == old(delivered)
    {
      WaitKeepsInv(Snapshot(), now, input);
      ghost var goal := WaitSpec(Snapshot(), now, input);
      while input != []
        invariant state == Phase.WaitForStart && position < |Start| && buffer.Length == BufferSize
        invariant WaitSpec(Snapshot(), now, input) == goal
        invariant delivered == old(delivered)
        decreases |input|
      {
        ghost var s := Snapshot();
        buffer[position] := input[0];
        input, position := input[1..], if buffer[position] == Start[position] then position + 1 else 0;
        assert Snapshot() == s.(buf := s.buf[s.position := buffer[s.position]],
                                position := NextMatch(s.position, buffer[s.position]));
        if position == |Start| {
          SetState(Phase.ReadMessage, now);
          return;
        }
      }
    }

    /** `read_message`. */
    method ReadMessage(now: uint32)
      requires Valid() && state == Phase.ReadMessage
      modifies this, buffer
      ensures Valid() && state in {Phase.ReadMessage, Phase.ReadChecksum, Phase.WaitForStart}
      ensures Step(Snapshot(), input) == ReadMessageSpec(old(Snapshot()), now, old(input))
      ensures delivered == old(delivered)
    {
      ReadMessageKeepsInv(Snapshot(), now, input);
      ghost var goal := ReadMessageSpec(Snapshot(), now, input);
      while input != []
        invariant state == Phase.ReadMessage && buffer.Length == BufferSize
        invariant |Start| <= position <= BufferSize - TrailerSize
        invariant ReadMessageSpec(Snapshot(), now, input) == goal
        invariant delivered == old(delivered)
        decreases |input|
      {
        if position + TrailerSize == BufferSize {
          ReadMessageFull(Snapshot(), now, input);
          ResetState(now);
          return;
        }
        ghost var s, rest := Snapshot(), input;
        buffer[position] := input[0];
        input, position := input[1..], position + 1;
        assert Snapshot() == s.(buf := s.buf[s.position := rest[0]], position := s.position + 1);
        var found := EndSequenceFound(buffer, position);
        if found {
          ReadMessageEnds(s, now, rest);
          SetState(Phase.ReadChecksum, now);
          return;
        }
        ReadMessageStep(s, now, rest);
      }
    }

    /** `read_checksum`. */
    method ReadChecksum(now: uint32)
      requires Valid() && state == Phase.ReadChecksum
      modifies this, buffer
      ensures Valid() && state in {Phase.ReadChecksum, Phase.ProcessMessage}
      ensures Step(Snapshot(), input) == ReadChecksumSpec(old(Snapshot()), now, old(input))
      ensures delivered == old(delivered)
    {
      ReadChecksumKeepsInv(Snapshot(), now, input);
      ghost var s0 := Snapshot();
      ghost var goal := TrailerSpec(Snapshot(), input);
      while bytesUntilChecksum > 0 && input != []
        invariant state == Phase.ReadChecksum && buffer.Length == BufferSize
        invariant position + bytesUntilChecksum <= BufferSize
        invariant lastStateReset == s0.lastReset
        invariant TrailerSpec(Snapshot(), input) == goal
        invariant delivered == old(delivered)
        decreases |input|
      {
        ghost var s, rest := Snapshot(), input;
        TrailerStep(s, rest);
        buffer[position] := input[0];
        input, position, bytesUntilChecksum := input[1..], position + 1, bytesUntilChecksum - 1;
        assert Snapshot() == s.(buf := s.buf[s.position := rest[0]], position := s.position + 1,
                                untilChecksum := s.untilChecksum - 1);
      }
      assert TrailerSpec(Snapshot(), input) == Step(Snapshot(), input);
      if bytesUntilChecksum == 0 {
        SetState(Phase.ProcessMessage, now);
      }
    }

    /** `process_message`: hand the buffer and the cursor to the callback, if
        there is one, and start over. */
    method ProcessMessage(now: uint32)
      requires Valid() && state == Phase.ProcessMessage
      modifies this
      ensures Valid()
      ensures Snapshot() == Framing.Reset(old(Snapshot()), now) && input == old(input)
      ensures delivered == old(delivered) + (if hasCallback then [old(buffer[..position])] else [])
    {
      if hasCallback {
        delivered := delivered + [buffer[..position]];
      }
      ResetState(now);
    }

    /** `run_current_state`, with `now` the value of `millis()` in this tick. */
    method RunCurrentState(now: uint32)
      requires Valid()
      modifies this, buffer
      ensures Valid()
      ensures var o := Tick(old(Snapshot()), now, old(input));
        Snapshot() == o.next && input == o.rest &&
        delivered == old(delivered) +
          (if o.processed.Some? && hasCallback then [old(buffer[..position])] else [])
    {
      if state != Phase.Init {
        if TimedOut(now, lastStateReset) {
          ResetState(now);
        }
        match state {
          case WaitForStart => WaitForStartSequence(now);
          case ReadMessage => ReadMessage(now);
          case ProcessMessage => ProcessMessage(now);
          case ReadChecksum => ReadChecksum(now);
          case Init =>
        }
      }
    }

    /** `loop`: one tick of the machine. */
    method Loop(now: uint32)
      requires Valid()
      modifies this, buffer
      ensures Valid()
      ensures var o := Tick(old(Snapshot()), now, old(input));
        Snapshot() == o.next && input == o.rest &&
        delivered == old(delivered) +
          (if o.processed.Some? && hasCallback then [old(buffer[..position])] else [])
    {
      RunCurrentState(now);
    }
  }
}
