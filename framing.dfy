/** The transport framing state machine that both copies of the reader run
    (the global one of src/main.cpp and class `Sensor` of src/Sensor.h), as pure
    functions over a snapshot of its state. Each handler drains the bytes that
    are available on the serial line and returns the new state together with
    the bytes it left unread. The two copies differ only in what
    `process_message` does with a complete frame; that part belongs to the
    classes. */
module Framing {
  import opened Base

  /** The escape sequence and version marker that open a frame. */
  const Start: seq<byte> := [0x1B, 0x1B, 0x1B, 0x1B, 0x01, 0x01, 0x01, 0x01]
  /** The escape sequence and end marker that precede the trailer. */
  const End: seq<byte> := [0x1B, 0x1B, 0x1B, 0x1B, 0x1A]
  /** Capacity of the frame buffer. */
  const BufferSize: nat := 3840
  /** Number of trailer bytes after the end marker: fill count and checksum. */
  const TrailerSize: nat := 3
  /** The session timeout, `READ_TIMEOUT * 1000`, in milliseconds. */
  const TimeoutMillis: nat := 30 * 1000
  const TwoTo32: nat := 0x1_0000_0000

  /** The states of the machine. `Init` is the state before the machine is
      started: the null function pointer of the global copy and `INIT` of the
      class. */
  datatype Phase = Init | WaitForStart | ReadMessage | ReadChecksum | ProcessMessage

  /** The state a handler works on: the current phase, the whole buffer, the
      cursor, the trailer countdown and the time of the last reset. */
  datatype Scanner = Scanner(phase: Phase, buf: seq<byte>, position: nat,
                             untilChecksum: nat, lastReset: uint32)

  /** What a handler leaves behind: the new state and the unread input. */
  datatype Step = Step(next: Scanner, rest: seq<byte>)

  /** What one tick leaves behind; `processed` is the length of the frame that
      was handed to `process_message` in this tick, if any. */
  datatype Outcome = Outcome(next: Scanner, rest: seq<byte>, processed: Option<nat>)

  /** The end marker occupies the five bytes just before index `n`. */
  predicate EndMarkerAt(buf: seq<byte>, n: nat)
  {
    5 <= n <= |buf| && buf[n - 5..n] == End
  }

  /** No end marker ends at an index strictly between `lo` and `hi`. */
  predicate NoEndMarkerBetween(buf: seq<byte>, lo: nat, hi: nat)
  {
    forall n :: lo < n < hi ==> !EndMarkerAt(buf, n)
  }

  /** The state invariant of the machine, phase by phase. */
  predicate Inv(s: Scanner)
  {
    |s.buf| == BufferSize && s.untilChecksum <= TrailerSize &&
    match s.phase
    case Init => s.position == 0
    case WaitForStart =>
      s.position < |Start| && s.buf[..s.position] == Start[..s.position]
    case ReadMessage =>
      |Start| <= s.position <= BufferSize - TrailerSize && s.buf[..|Start|] == Start &&
      NoEndMarkerBetween(s.buf, |Start|, s.position + 1)
    case ReadChecksum =>
      1 <= s.untilChecksum &&
      var e := s.position - (TrailerSize - s.untilChecksum);
      |Start| + |End| <= e <= BufferSize - TrailerSize && s.buf[..|Start|] == Start &&
      EndMarkerAt(s.buf, e) && NoEndMarkerBetween(s.buf, |Start|, e)
    case ProcessMessage =>
      var e := s.position - TrailerSize;
      s.untilChecksum == 0 &&
      |Start| + |End| + TrailerSize <= s.position <= BufferSize &&
      s.buf[..|Start|] == Start && EndMarkerAt(s.buf, e) && NoEndMarkerBetween(s.buf, |Start|, e)
  }

  /** `set_state`: entering the wait state restarts the session clock and
      rewinds the cursor, entering the checksum state arms the trailer
      countdown, and every other transition changes only the phase. */
  function SetState(s: Scanner, p: Phase, now: uint32): (r: Scanner)
    ensures r.phase == p && r.buf == s.buf
    ensures r.position == (if p == WaitForStart then 0 else s.position)
    ensures r.lastReset == (if p == WaitForStart then now else s.lastReset)
    ensures r.untilChecksum == (if p == ReadChecksum then TrailerSize else s.untilChecksum)
  {
    match p
    case WaitForStart => s.(phase := p, position := 0, lastReset := now)
    case ReadChecksum => s.(phase := p, untilChecksum := TrailerSize)
    case _ => s.(phase := p)
  }

  /** `reset`: start over and wait for the start sequence. */
  function Reset(s: Scanner, now: uint32): (r: Scanner)
    ensures r.phase == WaitForStart && r.position == 0 && r.lastReset == now
    ensures r.buf == s.buf && r.untilChecksum == s.untilChecksum
  {
    SetState(s, WaitForStart, now)
  }

  /** The cursor after the wait state has stored byte `b`: one further on if
      `b` continues the start sequence, else back to the beginning. */
  function NextMatch(position: nat, b: byte): (r: nat)
    requires position < |Start|
    ensures r <= position + 1
  {
    if b == Start[position] then position + 1 else 0
  }

  /** `wait_for_start_sequence`: store each byte at the cursor and move the
      cursor by `NextMatch`, until all of the start sequence has been matched. */
  function WaitSpec(s: Scanner, now: uint32, input: seq<byte>): Step
    requires s.position < |Start| && |s.buf| == BufferSize
    decreases |input|
  {
    if input == [] then Step(s, input)
    else
      var b := input[0];
      var p := NextMatch(s.position, b);
      var s' := s.(buf := s.buf[s.position := b], position := p);
      if p == |Start| then Step(SetState(s', ReadMessage, now), input[1..])
      else WaitSpec(s', now, input[1..])
  }

  /** `read_message`: give up when the buffer has no room left for the
      trailer, else append the byte and stop after the end marker. */
  function ReadMessageSpec(s: Scanner, now: uint32, input: seq<byte>): Step
    requires s.position <= BufferSize - TrailerSize && |s.buf| == BufferSize
    decreases |input|
  {
    if input == [] then Step(s, input)
    else if s.position + TrailerSize == BufferSize then Step(Reset(s, now), input)
    else
      var s' := s.(buf := s.buf[s.position := input[0]], position := s.position + 1);
      if EndMarkerAt(s'.buf, s'.position) then Step(SetState(s', ReadChecksum, now), input[1..])
      else ReadMessageSpec(s', now, input[1..])
  }

  /** The loop of `read_checksum`: append bytes while the countdown is positive. */
  function TrailerSpec(s: Scanner, input: seq<byte>): Step
    requires s.position + s.untilChecksum <= BufferSize && |s.buf| == BufferSize
    decreases |input|
  {
    if s.untilChecksum == 0 || input == [] then Step(s, input)
    else
      TrailerSpec(s.(buf := s.buf[s.position := input[0]], position := s.position + 1,
                     untilChecksum := s.untilChecksum - 1), input[1..])
  }

  /** One iteration of the trailer loop. */
  lemma TrailerStep(s: Scanner, input: seq<byte>)
    requires s.position + s.untilChecksum <= BufferSize && |s.buf| == BufferSize
    requires s.untilChecksum > 0 && input != []
    ensures TrailerSpec(s, input)
         == TrailerSpec(s.(buf := s.buf[s.position := input[0]], position := s.position + 1,
                           untilChecksum := s.untilChecksum - 1), input[1..])
  {
  }

  /** `read_checksum`: read the trailer, then go on to processing once it is
      complete. */
  function ReadChecksumSpec(s: Scanner, now: uint32, input: seq<byte>): Step
    requires s.position + s.untilChecksum <= BufferSize && |s.buf| == BufferSize
  {
    var t := TrailerSpec(s, input);
    if t.next.untilChecksum == 0 then Step(SetState(t.next, ProcessMessage, now), t.rest)
    else t
  }

  /** The session has been running for longer than the timeout; the clock is
      an unsigned 32-bit millisecond counter, so the difference wraps. */
  predicate TimedOut(now: uint32, lastReset: uint32)
  {
    (now - lastReset) % TwoTo32 > TimeoutMillis
  }

  /** The handler of the current phase. `process_message` always ends with a
      reset; what it does with the frame before that is up to the caller, who
      learns the frame's length from `processed`. Every handler keeps the
      invariant and moves at most one phase forward, or back to waiting. */
  function Handle(s: Scanner, now: uint32, input: seq<byte>): (o: Outcome)
    requires Inv(s)
    ensures Inv(o.next)
    ensures o.next.phase in {s.phase, Successor(s.phase), WaitForStart}
    ensures o.processed.Some? <==> s.phase == ProcessMessage
  {
    match s.phase
    case Init => Outcome(s, input, None)
    case WaitForStart =>
      WaitKeepsInv(s, now, input);
      var t := WaitSpec(s, now, input); Outcome(t.next, t.rest, None)
    case ReadMessage =>
      ReadMessageKeepsInv(s, now, input);
      var t := ReadMessageSpec(s, now, input); Outcome(t.next, t.rest, None)
    case ReadChecksum =>
      ReadChecksumKeepsInv(s, now, input);
      var t := ReadChecksumSpec(s, now, input); Outcome(t.next, t.rest, None)
    case ProcessMessage =>
      ResetKeepsInv(s, now);
      Outcome(Reset(s, now), input, Some(s.position))
  }

  /** `run_current_state`: nothing happens before the machine is started;
      otherwise a session older than the timeout is reset first, and then the
      handler of the (possibly new) phase runs in the same tick. So a frame is
      processed only in a tick that finds it complete and in time. */
  function Tick(s: Scanner, now: uint32, input: seq<byte>): (o: Outcome)
    requires Inv(s)
    ensures Inv(o.next)
    ensures s.phase == Init ==> o == Outcome(s, input, None)
    ensures o.processed.Some? <==> s.phase == ProcessMessage && !TimedOut(now, s.lastReset)
    ensures o.processed.Some? ==>
      o.processed.value == s.position && o.next == Reset(s, now) && o.rest == input
  {
    if s.phase == Init then Outcome(s, input, None)
    else
      ResetKeepsInv(s, now);
      Handle(if TimedOut(now, s.lastReset) then Reset(s, now) else s, now, input)
  }

  /** The wait handler leaves the time of the last reset alone. */
  lemma {:induction false} WaitKeepsReset(s: Scanner, now: uint32, input: seq<byte>)
    requires s.position < |Start| && |s.buf| == BufferSize
    ensures WaitSpec(s, now, input).next.lastReset == s.lastReset
    decreases |input|
  {
    if input != [] {
      var p := NextMatch(s.position, input[0]);
      var s' := s.(buf := s.buf[s.position := input[0]], position := p);
      if p < |Start| {
        WaitKeepsReset(s', now, input[1..]);
      }
    }
  }

  /** A started session older than the timeout is discarded: the tick resets
      the machine, which restarts the session clock at `now` and rewinds the
      cursor, and then runs the wait handler on the fresh state. No frame is
      processed, and the machine ends waiting or, if the input held a whole
      start sequence, in the message phase right behind it. */
  lemma TimeoutRestartsSession(s: Scanner, now: uint32, input: seq<byte>)
    requires Inv(s) && s.phase != Init && TimedOut(now, s.lastReset)
    ensures var o := Tick(s, now, input);
      var w := WaitSpec(Reset(s, now), now, input);
      o == Outcome(w.next, w.rest, None) &&
      o.next.lastReset == now && o.next.phase in {WaitForStart, ReadMessage} &&
      (o.next.phase == ReadMessage ==> o.next.position == |Start|)
  {
    var r := Reset(s, now);
    ResetKeepsInv(s, now);
    WaitKeepsInv(r, now, input);
    WaitKeepsReset(r, now, input);
  }

  /** The end-sequence test of `read_message`: compare the end marker with the
      bytes just before `position`, from the last one backwards, and stop at
      the first difference; the marker is found when the comparison gets past
      its first byte. */
  method EndSequenceFound(buffer: array<byte>, position: nat) returns (found: bool)
    requires |End| <= position <= buffer.Length
    ensures found == EndMarkerAt(buffer[..], position)
  {
    ghost var window := buffer[..][position - |End|..position];
    var last := |End| - 1;
    var i := 0;
    while i <= last && End[last - i] == buffer[position - (i + 1)]
      invariant 0 <= i <= |End|
      invariant forall j :: |End| - i <= j < |End| ==> window[j] == End[j]
    {
      assert window[last - i] == buffer[position - (i + 1)];
      i := i + 1;
    }
    if i <= last {
      assert window[last - i] == buffer[position - (i + 1)];
    }
    WindowIsEnd(window, i);
    found := i == |End|;
  }

  /** The window equals the end marker exactly when the backward comparison
      got past the marker's first byte. */
  lemma WindowIsEnd(window: seq<byte>, i: nat)
    requires |window| == |End| && i <= |End|
    requires forall j :: |End| - i <= j < |End| ==> window[j] == End[j]
    requires i < |End| ==> window[|End| - 1 - i] != End[|End| - 1 - i]
    ensures window == End <==> i == |End|
  {
    if i == |End| {
      assert forall j :: 0 <= j < |End| ==> window[j] == End[j];
    }
  }

  // ---------------------------------------------------------------------
  // The invariant

  /** A reset always leads to a valid waiting state. */
  lemma ResetKeepsInv(s: Scanner, now: uint32)
    requires |s.buf| == BufferSize && s.untilChecksum <= TrailerSize
    ensures Inv(Reset(s, now))
  {
  }

  /** Writing at or after index `p` does not touch an end marker ending at `p`
      or before. */
  lemma EndMarkerUnaffected(buf: seq<byte>, p: nat, b: byte, n: nat)
    requires p < |buf| && n <= p
    ensures EndMarkerAt(buf[p := b], n) == EndMarkerAt(buf, n)
  {
    if 5 <= n {
      assert buf[p := b][n - 5..n] == buf[n - 5..n];
    }
  }

  /** The same, for all end positions up to `p` at once. */
  lemma NoEndMarkerUnaffected(buf: seq<byte>, p: nat, b: byte, lo: nat, hi: nat)
    requires p < |buf| && hi <= p + 1 && NoEndMarkerBetween(buf, lo, hi)
    ensures NoEndMarkerBetween(buf[p := b], lo, hi)
  {
    var buf' := buf[p := b];
    forall n | lo < n < hi ensures !EndMarkerAt(buf', n) {
      EndMarkerUnaffected(buf, p, b, n);
    }
  }

  /** The wait state keeps the matched part of the start sequence in the
      buffer, and leaves it only with all of it there and the cursor just
      behind it. */
  lemma {:induction false} WaitKeepsInv(s: Scanner, now: uint32, input: seq<byte>)
    requires Inv(s) && s.phase == WaitForStart
    ensures Inv(WaitSpec(s, now, input).next)
    ensures WaitSpec(s, now, input).next.phase in {WaitForStart, ReadMessage}
    ensures WaitSpec(s, now, input).next.phase == ReadMessage ==> WaitSpec(s, now, input).next.position == |Start|
    ensures WaitSpec(s, now, input).next.phase == WaitForStart ==> WaitSpec(s, now, input).rest == []
    decreases |input|
  {
    if input != [] {
      var b := input[0];
      var p := NextMatch(s.position, b);
      var buf' := s.buf[s.position := b];
      var s' := s.(buf := buf', position := p);
      assert buf'[..p] == Start[..p] by {
        if p > 0 {
          assert buf'[..p] == s.buf[..s.position] + [b];
        }
      }
      if p == |Start| {
        var r := SetState(s', ReadMessage, now);
        assert r.buf[..|Start|] == Start;
        assert NoEndMarkerBetween(r.buf, |Start|, r.position + 1);
      } else {
        WaitKeepsInv(s', now, input[1..]);
      }
    }
  }

  /** Reading a message keeps the cursor at least three bytes short of the end
      of the buffer, never passes over an end marker, and leaves either for the
      checksum state right behind the first end marker or, when the buffer is
      full, for the wait state. */
  lemma {:induction false} ReadMessageKeepsInv(s: Scanner, now: uint32, input: seq<byte>)
    requires Inv(s) && s.phase == ReadMessage
    ensures Inv(ReadMessageSpec(s, now, input).next)
    ensures ReadMessageSpec(s, now, input).next.phase in {ReadMessage, ReadChecksum, WaitForStart}
    decreases |input|
  {
    if input == [] {
    } else if s.position + TrailerSize == BufferSize {
      ResetKeepsInv(s, now);
    } else {
      var s' := s.(buf := s.buf[s.position := input[0]], position := s.position + 1);
      if EndMarkerAt(s'.buf, s'.position) {
        EndMarkerEndsMessage(s, now, input);
      } else {
        MessageContinues(s, now, input);
        ReadMessageKeepsInv(s', now, input[1..]);
      }
    }
  }

  /** A byte that completes an end marker moves the message phase on to the
      checksum phase, with the invariant. */
  lemma EndMarkerEndsMessage(s: Scanner, now: uint32, input: seq<byte>)
    requires Inv(s) && s.phase == ReadMessage && input != [] && s.position + TrailerSize != BufferSize
    requires EndMarkerAt(s.buf[s.position := input[0]], s.position + 1)
    ensures Inv(ReadMessageSpec(s, now, input).next)
    ensures ReadMessageSpec(s, now, input).next.phase == ReadChecksum
  {
    var s' := s.(buf := s.buf[s.position := input[0]], position := s.position + 1);
    AppendKeepsStart(s, input[0]);
    EndMarkerAfterStart(s'.buf, s'.position);
    var r := s'.(phase := ReadChecksum, untilChecksum := TrailerSize);
    TrailerStateInv(r, s'.position);
    assert ReadMessageSpec(s, now, input).next == r;
  }

  /** A byte that completes no end marker is appended, and the message phase
      goes on with the invariant. */
  lemma MessageContinues(s: Scanner, now: uint32, input: seq<byte>)
    requires Inv(s) && s.phase == ReadMessage && input != [] && s.position + TrailerSize != BufferSize
    requires !EndMarkerAt(s.buf[s.position := input[0]], s.position + 1)
    ensures var s' := s.(buf := s.buf[s.position := input[0]], position := s.position + 1);
      Inv(s') && s'.phase == ReadMessage &&
      ReadMessageSpec(s, now, input) == ReadMessageSpec(s', now, input[1..])
  {
    var s' := s.(buf := s.buf[s.position := input[0]], position := s.position + 1);
    AppendKeepsStart(s, input[0]);
    NoEndMarkerExtends(s'.buf, |Start|, s'.position);
    ReadStateInv(s');
  }

  /** Appending a byte in the message phase keeps the start sequence and adds
      no end marker before the new cursor. */
  lemma AppendKeepsStart(s: Scanner, b: byte)
    requires Inv(s) && s.phase == ReadMessage && s.position + TrailerSize != BufferSize
    ensures var s' := s.(buf := s.buf[s.position := b], position := s.position + 1);
      |s'.buf| == BufferSize && |Start| < s'.position <= BufferSize - TrailerSize &&
      s'.buf[..|Start|] == Start && NoEndMarkerBetween(s'.buf, |Start|, s'.position)
  {
    var buf' := s.buf[s.position := b];
    assert buf'[..|Start|] == s.buf[..|Start|];
    NoEndMarkerUnaffected(s.buf, s.position, b, |Start|, s.position + 1);
  }

  /** A stretch without end markers grows by one index that ends none. */
  lemma NoEndMarkerExtends(buf: seq<byte>, lo: nat, hi: nat)
    requires NoEndMarkerBetween(buf, lo, hi) && !EndMarkerAt(buf, hi)
    ensures NoEndMarkerBetween(buf, lo, hi + 1)
  {
  }

  /** The invariant of the message phase, from its parts. */
  lemma ReadStateInv(t: Scanner)
    requires t.phase == ReadMessage && |t.buf| == BufferSize && t.untilChecksum <= TrailerSize
    requires |Start| <= t.position <= BufferSize - TrailerSize && t.buf[..|Start|] == Start
    requires NoEndMarkerBetween(t.buf, |Start|, t.position + 1)
    ensures Inv(t)
  {
  }

  /** The message phase, started in `s` on `input`, ended in `r` having
      consumed a prefix of the input. While there was room it appended every
      byte it consumed behind the cursor, and it stopped right after an end
      marker or when the input ran out. With the buffer full it started over
      without consuming the next byte. */
  predicate MessageAppended(s: Scanner, now: uint32, input: seq<byte>, r: Step)
  {
    var k := |input| - |r.rest|;
    0 <= k && r.rest == input[k..] && s.position <= |s.buf| &&
    (r.next.phase == WaitForStart ==>
       r.next.position == 0 && r.next.lastReset == now && r.rest != [] &&
       s.position + k == BufferSize - TrailerSize) &&
    (r.next.phase != WaitForStart ==>
       |r.next.buf| == BufferSize && r.next.position == s.position + k <= BufferSize &&
       r.next.buf[..r.next.position] == s.buf[..s.position] + input[..k] &&
       r.next.lastReset == s.lastReset) &&
    (r.next.phase == ReadMessage ==> r.rest == [])
  }

  /** Reading a message appends the bytes it consumes, as `MessageAppended`
      says. */
  lemma {:induction false} ReadMessageAppends(s: Scanner, now: uint32, input: seq<byte>)
    requires s.phase == ReadMessage && s.position <= BufferSize - TrailerSize && |s.buf| == BufferSize
    ensures MessageAppended(s, now, input, ReadMessageSpec(s, now, input))
    decreases |input|
  {
    if input == [] {
      assert s.buf[..s.position] + input[..0] == s.buf[..s.position];
    } else if s.position + TrailerSize != BufferSize {
      var s' := s.(buf := s.buf[s.position := input[0]], position := s.position + 1);
      if EndMarkerAt(s'.buf, s'.position) {
        EndMarkerAppends(s, now, input);
      } else {
        ReadMessageAppends(s', now, input[1..]);
        AppendsOneMore(s, now, input);
      }
    }
  }

  /** The byte that completes the end marker is the one byte appended. */
  lemma EndMarkerAppends(s: Scanner, now: uint32, input: seq<byte>)
    requires s.phase == ReadMessage && s.position < BufferSize - TrailerSize && |s.buf| == BufferSize
    requires input != [] && EndMarkerAt(s.buf[s.position := input[0]], s.position + 1)
    ensures MessageAppended(s, now, input, ReadMessageSpec(s, now, input))
  {
    var s' := s.(buf := s.buf[s.position := input[0]], position := s.position + 1);
    assert s'.buf[..s'.position] == s.buf[..s.position] + [input[0]];
    assert input[..1] == [input[0]];
    assert ReadMessageSpec(s, now, input) == Step(SetState(s', ReadChecksum, now), input[1..]);
  }

  /** A byte that completes no end marker is appended in front of whatever
      the rest of the input appends. */
  lemma AppendsOneMore(s: Scanner, now: uint32, input: seq<byte>)
    requires s.phase == ReadMessage && s.position < BufferSize - TrailerSize && |s.buf| == BufferSize
    requires input != []
    requires var s' := s.(buf := s.buf[s.position := input[0]], position := s.position + 1);
      !EndMarkerAt(s'.buf, s'.position) &&
      MessageAppended(s', now, input[1..], ReadMessageSpec(s', now, input[1..]))
    ensures MessageAppended(s, now, input, ReadMessageSpec(s, now, input))
  {
    var s' := s.(buf := s.buf[s.position := input[0]], position := s.position + 1);
    ReadMessageStep(s, now, input);
    var r := ReadMessageSpec(s', now, input[1..]);
    SetAppends(s.buf, s.position, input[0]);
    ShiftedSlices(s.buf[..s.position], input, |input[1..]| - |r.rest|);
  }

  /** One byte of `read_message` that is not the end of the marker. */
  lemma ReadMessageStep(s: Scanner, now: uint32, input: seq<byte>)
    requires s.phase == ReadMessage && s.position < BufferSize - TrailerSize && |s.buf| == BufferSize
    requires input != []
    requires !EndMarkerAt(s.buf[s.position := input[0]], s.position + 1)
    ensures ReadMessageSpec(s, now, input)
         == ReadMessageSpec(s.(buf := s.buf[s.position := input[0]], position := s.position + 1), now, input[1..])
  {
  }

  /** The exit of the message loop when the buffer has no room for the trailer. */
  lemma ReadMessageFull(s: Scanner, now: uint32, input: seq<byte>)
    requires s.position + TrailerSize == BufferSize && |s.buf| == BufferSize && input != []
    ensures ReadMessageSpec(s, now, input) == Step(Reset(s, now), input)
  {
  }

  /** The exit of the message loop when the byte just stored completes the end
      marker. */
  lemma ReadMessageEnds(s: Scanner, now: uint32, input: seq<byte>)
    requires s.position < BufferSize - TrailerSize && |s.buf| == BufferSize && input != []
    requires EndMarkerAt(s.buf[s.position := input[0]], s.position + 1)
    ensures ReadMessageSpec(s, now, input)
         == Step(SetState(s.(buf := s.buf[s.position := input[0]], position := s.position + 1), ReadChecksum, now), input[1..])
  {
  }

  /** Writing at the cursor and advancing it appends the byte. */
  lemma SetAppends(buf: seq<byte>, position: nat, b: byte)
    requires position < |buf|
    ensures buf[position := b][..position + 1] == buf[..position] + [b]
  {
  }

  /** The slices of `input` after its first byte, seen from `input`. */
  lemma ShiftedSlices(a: seq<byte>, input: seq<byte>, k: int)
    requires input != [] && 0 <= k <= |input| - 1
    ensures input[1..][k..] == input[k + 1..]
    ensures (a + [input[0]]) + input[1..][..k] == a + input[..k + 1]
  {
    assert input[..k + 1] == [input[0]] + input[1..][..k];
  }

  /** An end marker behind the start sequence cannot overlap it. */
  lemma EndMarkerAfterStart(buf: seq<byte>, n: nat)
    requires |Start| <= |buf| && buf[..|Start|] == Start && |Start| < n && EndMarkerAt(buf, n)
    ensures |Start| + |End| <= n
  {
    assert buf[|Start| - 1] == buf[..|Start|][|Start| - 1];
  }

  /** The trailer loop, started in `s` on `input`, ended in `t`: it appended
      the bytes it consumed at the cursor, counted them down, and stopped when
      the countdown or the input ran out. */
  predicate TrailerAppended(s: Scanner, input: seq<byte>, t: Step)
  {
    var k := s.untilChecksum - t.next.untilChecksum;
    t.next.phase == s.phase && t.next.lastReset == s.lastReset &&
    |t.next.buf| == BufferSize && 0 <= k <= |input| && s.position <= |s.buf| &&
    t.rest == input[k..] && (t.next.untilChecksum == 0 || t.rest == []) &&
    t.next.position == s.position + k && t.next.position <= |t.next.buf| &&
    t.next.buf[..t.next.position] == s.buf[..s.position] + input[..k]
  }

  /** The trailer loop appends what it consumes, as `TrailerAppended` says. */
  lemma {:induction false} TrailerAppends(s: Scanner, input: seq<byte>)
    requires s.position + s.untilChecksum <= BufferSize && |s.buf| == BufferSize
    ensures TrailerAppended(s, input, TrailerSpec(s, input))
    decreases |input|
  {
    if s.untilChecksum == 0 || input == [] {
      assert s.buf[..s.position] + input[..0] == s.buf[..s.position];
    } else {
      var s' := s.(buf := s.buf[s.position := input[0]], position := s.position + 1,
                   untilChecksum := s.untilChecksum - 1);
      TrailerStep(s, input);
      TrailerAppends(s', input[1..]);
      TrailerAppendsOneMore(s, input);
    }
  }

  /** A trailer byte is appended in front of whatever the rest of the input
      appends. */
  lemma TrailerAppendsOneMore(s: Scanner, input: seq<byte>)
    requires s.position + s.untilChecksum <= BufferSize && |s.buf| == BufferSize
    requires s.untilChecksum > 0 && input != []
    requires var s' := s.(buf := s.buf[s.position := input[0]], position := s.position + 1,
                          untilChecksum := s.untilChecksum - 1);
      TrailerSpec(s, input) == TrailerSpec(s', input[1..]) &&
      TrailerAppended(s', input[1..], TrailerSpec(s', input[1..]))
    ensures TrailerAppended(s, input, TrailerSpec(s, input))
  {
    var s' := s.(buf := s.buf[s.position := input[0]], position := s.position + 1,
                 untilChecksum := s.untilChecksum - 1);
    var t := TrailerSpec(s', input[1..]);
    var k' := s'.untilChecksum - t.next.untilChecksum;
    assert t.next.buf[..t.next.position] == s'.buf[..s'.position] + input[1..][..k'];
    SetAppends(s.buf, s.position, input[0]);
    ShiftedSlices(s.buf[..s.position], input, k');
    assert t.next.buf[..t.next.position] == s.buf[..s.position] + input[..k' + 1];
  }

  /** The checksum state reads the trailer and leaves for processing exactly
      when all three trailer bytes are in. */
  lemma ReadChecksumKeepsInv(s: Scanner, now: uint32, input: seq<byte>)
    requires Inv(s) && s.phase == ReadChecksum
    ensures Inv(ReadChecksumSpec(s, now, input).next)
    ensures ReadChecksumSpec(s, now, input).next.phase in {ReadChecksum, ProcessMessage}
  {
    TrailerKeepsFrame(s, input);
    var t := TrailerSpec(s, input).next;
    var r := ReadChecksumSpec(s, now, input).next;
    if t.untilChecksum == 0 {
      assert r == t.(phase := ProcessMessage);
    } else {
      assert r == t;
    }
    TrailerStateInv(r, s.position - (TrailerSize - s.untilChecksum));
  }

  /** The invariant of the trailer and processing phases, from its parts: the
      end marker ends at `e`, and the cursor is behind it by the trailer bytes
      read so far. */
  lemma TrailerStateInv(t: Scanner, e: nat)
    requires t.phase == ReadChecksum || t.phase == ProcessMessage
    requires |t.buf| == BufferSize && t.untilChecksum <= TrailerSize
    requires t.phase == ReadChecksum ==> 1 <= t.untilChecksum
    requires t.phase == ProcessMessage ==> t.untilChecksum == 0
    requires TrailerSize - t.untilChecksum <= t.position && t.position - (TrailerSize - t.untilChecksum) == e
    requires |Start| + |End| <= e <= BufferSize - TrailerSize && t.buf[..|Start|] == Start
    requires EndMarkerAt(t.buf, e) && NoEndMarkerBetween(t.buf, |Start|, e)
    ensures Inv(t)
  {
  }

  /** Reading trailer bytes leaves the frame and its end marker in place. */
  lemma TrailerKeepsFrame(s: Scanner, input: seq<byte>)
    requires Inv(s) && s.phase == ReadChecksum
    ensures var t := TrailerSpec(s, input).next;
      var e := s.position - (TrailerSize - s.untilChecksum);
      t.phase == ReadChecksum && |t.buf| == BufferSize && t.untilChecksum <= TrailerSize &&
      TrailerSize - t.untilChecksum <= t.position && t.position - (TrailerSize - t.untilChecksum) == e &&
      |Start| + |End| <= e <= BufferSize - TrailerSize && t.buf[..|Start|] == Start &&
      EndMarkerAt(t.buf, e) && NoEndMarkerBetween(t.buf, |Start|, e)
  {
    TrailerAppends(s, input);
    var t := TrailerSpec(s, input).next;
    var e := s.position - (TrailerSize - s.untilChecksum);
    assert t.buf[..s.position] == s.buf[..s.position] by {
      var k := s.untilChecksum - t.untilChecksum;
      PrefixOfAppend(t.buf, s.buf[..s.position], input[..k]);
    }
    PrefixKeepsMarkers(s.buf, t.buf, s.position, e);
  }

  /** A sequence that starts with `a + x` starts with `a`. */
  lemma PrefixOfAppend<T>(b: seq<T>, a: seq<T>, x: seq<T>)
    requires |a| + |x| <= |b| && b[..|a| + |x|] == a + x
    ensures b[..|a|] == a
  {
    assert b[..|a|] == b[..|a| + |x|][..|a|] == (a + x)[..|a|];
  }

  /** Two buffers that agree below `p` have the same end markers up to `e`. */
  lemma PrefixKeepsMarkers(a: seq<byte>, b: seq<byte>, p: nat, e: nat)
    requires p <= |a| && p <= |b| && a[..p] == b[..p]
    requires |Start| + |End| <= e <= p && a[..|Start|] == Start
    requires EndMarkerAt(a, e) && NoEndMarkerBetween(a, |Start|, e)
    ensures b[..|Start|] == Start && EndMarkerAt(b, e) && NoEndMarkerBetween(b, |Start|, e)
  {
    assert b[..|Start|] == a[..p][..|Start|];
    assert b[e - 5..e] == a[..p][e - 5..e];
    forall n | |Start| < n < e ensures !EndMarkerAt(b, n) {
      assert !EndMarkerAt(a, n);
      assert b[n - 5..n] == a[..p][n - 5..n] == a[n - 5..n];
    }
  }

  /** The phase that follows `p` in a successful session. */
  function Successor(p: Phase): (q: Phase)
    ensures p != Init ==> q != p
  {
    match p
    case Init => Init
    case WaitForStart => ReadMessage
    case ReadMessage => ReadChecksum
    case ReadChecksum => ProcessMessage
    case ProcessMessage => WaitForStart
  }

  // ---------------------------------------------------------------------
  // Whole frames

  /** Two resets in a row leave the state of the second one alone. */
  lemma ResetTwice(s: Scanner, t1: uint32, t2: uint32)
    ensures Reset(Reset(s, t1), t2) == Reset(s, t2)
  {
  }

  /** Whether an end marker ends at `n` depends only on the bytes before `n`. */
  lemma EndMarkerOfPrefix(a: seq<byte>, b: seq<byte>, n: nat)
    requires n <= |a| && n <= |b| && a[..n] == b[..n]
    ensures EndMarkerAt(a, n) == EndMarkerAt(b, n)
  {
    if 5 <= n {
      assert a[n - 5..n] == a[..n][n - 5..] && b[n - 5..n] == b[..n][n - 5..];
    }
  }

  /** Fed the rest of the start sequence, the wait state stores it, leaves for
      the message state with the cursor right behind it, and reads nothing
      more. */
  lemma {:induction false} WaitMatchesStart(s: Scanner, now: uint32, rest: seq<byte>)
    requires |s.buf| == BufferSize && s.position < |Start| && s.buf[..s.position] == Start[..s.position]
    ensures var r := WaitSpec(s, now, Start[s.position..] + rest);
      r.rest == rest && r.next.phase == ReadMessage && r.next.position == |Start| &&
      |r.next.buf| == BufferSize && r.next.buf[..|Start|] == Start &&
      r.next.lastReset == s.lastReset && r.next.untilChecksum == s.untilChecksum
    decreases |Start| - s.position
  {
    var input := Start[s.position..] + rest;
    var b := input[0];
    assert b == Start[s.position];
    var s' := s.(buf := s.buf[s.position := b], position := s.position + 1);
    assert s'.buf[..s'.position] == Start[..s'.position] by {
      assert s'.buf[..s'.position] == s.buf[..s.position] + [b];
    }
    assert input[1..] == Start[s'.position..] + rest;
    assert NextMatch(s.position, b) == s'.position;
    if s'.position < |Start| {
      WaitMatchesStart(s', now, rest);
      assert WaitSpec(s, now, input) == WaitSpec(s', now, input[1..]);
    } else {
      assert WaitSpec(s, now, input) == Step(SetState(s', ReadMessage, now), input[1..]);
    }
  }

  /** Fed a message body that contains its first end marker at its very end,
      the message state appends the body to the buffer and leaves for the
      checksum state right behind it. */
  lemma {:induction false} ReadMessageReadsBody(s: Scanner, now: uint32, m: seq<byte>, rest: seq<byte>)
    requires |s.buf| == BufferSize && m != [] && s.position + |m| <= BufferSize - TrailerSize
    requires EndMarkerAt(s.buf[..s.position] + m, s.position + |m|)
    requires forall n :: s.position < n < s.position + |m| ==> !EndMarkerAt(s.buf[..s.position] + m, n)
    ensures var r := ReadMessageSpec(s, now, m + rest);
      r.rest == rest && r.next.phase == ReadChecksum && r.next.position == s.position + |m| &&
      |r.next.buf| == BufferSize && r.next.buf[..r.next.position] == s.buf[..s.position] + m &&
      r.next.untilChecksum == TrailerSize && r.next.lastReset == s.lastReset
    decreases |m|
  {
    var w := s.buf[..s.position] + m;
    var input := m + rest;
    var s' := s.(buf := s.buf[s.position := m[0]], position := s.position + 1);
    assert input[0] == m[0] && input[1..] == m[1..] + rest;
    assert s'.buf[..s'.position] == s.buf[..s.position] + [m[0]];
    assert s'.buf[..s'.position] == w[..s'.position];
    EndMarkerOfPrefix(s'.buf, w, s'.position);
    if |m| > 1 {
      assert s'.buf[..s'.position] + m[1..] == w;
      ReadMessageReadsBody(s', now, m[1..], rest);
    }
  }

  /** Fed as many bytes as the countdown asks for, the trailer loop appends
      them all and stops at zero. */
  lemma {:induction false} TrailerReadsAll(s: Scanner, t: seq<byte>, rest: seq<byte>)
    requires |s.buf| == BufferSize && s.untilChecksum == |t| && s.position + |t| <= BufferSize
    ensures var r := TrailerSpec(s, t + rest);
      r.rest == rest && r.next.untilChecksum == 0 && r.next.position == s.position + |t| &&
      |r.next.buf| == BufferSize && r.next.buf[..r.next.position] == s.buf[..s.position] + t &&
      r.next.phase == s.phase && r.next.lastReset == s.lastReset
    decreases |t|
  {
    if t == [] {
      assert t + rest == rest;
    } else {
      var s' := s.(buf := s.buf[s.position := t[0]], position := s.position + 1,
                   untilChecksum := s.untilChecksum - 1);
      assert (t + rest)[0] == t[0] && (t + rest)[1..] == t[1..] + rest;
      assert s'.buf[..s'.position] == s.buf[..s.position] + [t[0]];
      TrailerReadsAll(s', t[1..], rest);
      assert s.buf[..s.position] + t == (s.buf[..s.position] + [t[0]]) + t[1..];
    }
  }

  /** A frame is a start sequence, a body whose first end marker is its last
      five bytes, and three trailer bytes, all within the buffer. */
  predicate WellFormedBody(m: seq<byte>)
  {
    |Start| + |m| <= BufferSize - TrailerSize &&
    EndMarkerAt(Start + m, |Start| + |m|) &&
    forall n :: |Start| < n < |Start| + |m| ==> !EndMarkerAt(Start + m, n)
  }

  /** A well-formed frame that arrives in time is read in four ticks, one per
      handler, and the fourth hands exactly the frame's bytes to
      `process_message`, then starts over. */
  lemma FrameIsProcessed(s: Scanner, m: seq<byte>, trailer: seq<byte>, more: seq<byte>,
                         t1: uint32, t2: uint32, t3: uint32, t4: uint32)
    requires Inv(s) && s.phase == WaitForStart && s.position == 0
    requires WellFormedBody(m) && |trailer| == TrailerSize
    requires !TimedOut(t1, s.lastReset) && !TimedOut(t2, s.lastReset)
    requires !TimedOut(t3, s.lastReset) && !TimedOut(t4, s.lastReset)
    ensures var o1 := Tick(s, t1, Start + m + trailer + more);
      var o2 := Tick(o1.next, t2, o1.rest);
      var o3 := Tick(o2.next, t3, o2.rest);
      var o4 := Tick(o3.next, t4, o3.rest);
      o1.processed == o2.processed == o3.processed == None &&
      o4.processed == Some(|Start + m + trailer|) &&
      o3.next.buf[..|Start + m + trailer|] == Start + m + trailer &&
      o4.next == Reset(o3.next, t4) && o4.rest == more
  {
    var frame := Start + m + trailer;
    assert Start[0..] + (m + trailer + more) == Start + m + trailer + more;
    WaitMatchesStart(s, t1, m + trailer + more);
    var o1 := Tick(s, t1, Start + m + trailer + more);
    assert o1.next.buf[..o1.next.position] + m == Start + m;
    assert m + trailer + more == m + (trailer + more);
    ReadMessageReadsBody(o1.next, t2, m, trailer + more);
    var o2 := Tick(o1.next, t2, o1.rest);
    TrailerReadsAll(o2.next, trailer, more);
    var o3 := Tick(o2.next, t3, o2.rest);
    assert o3.next.buf[..o3.next.position] == frame;
  }

  /** The start sequence is missed when it follows an escape byte: the fifth
      escape byte resets the match to the beginning, not to four. */
  lemma MarkerAfterEscapeMissed(s: Scanner, now: uint32)
    requires |s.buf| == BufferSize && s.phase == WaitForStart && s.position == 0
    ensures var r := WaitSpec(s, now, [0x1B] + Start);
      r.next.phase == WaitForStart && r.next.position == 0 && r.rest == []
  {
    var input: seq<byte> := [0x1B] + Start;
    assert WaitSpec(s, now, input).next == WaitSpec(s.(buf := s.buf[0 := 0x1B][1 := 0x1B][2 := 0x1B][3 := 0x1B], position := 4), now, input[4..]).next;
  }
}
