/** The byte-at-a-time frame decoder of the handlebar-display listener: the body
    of its read loop, as a step function over the decoder's state and as a
    class whose fields are the listener's state variables. */
module LcdDecoder {
  import opened LcdFields

  /** Bytes per frame; offset FrameSize - 1 holds the transmitted checksum. */
  const FrameSize: nat := 15
  const LastPos: nat := FrameSize - 1

  /** Magic prefix bytes and the sequence number the very first frame must carry. */
  const Magic0: byte := 0x01
  const Magic1: byte := 0x03
  const FirstSequence: byte := 2

  /** What the listener reports at the end of an accepted frame. Every value but
      the interval is read from the raw buffer. */
  datatype Readout = Readout(
    interval: int,
    pas: byte,
    cruiseCtl: byte,
    softStart: byte,
    powerLimit: byte,
    eabs: byte)

  /** The outcome of one byte: nothing (the frame goes on), or the end of a
      frame, accepted or rejected; both carry the buffer as it was dumped. */
  datatype Event =
    | NoEvent
    | Decoded(raw: seq<byte>, readout: Readout)
    | Rejected(raw: seq<byte>, parsed: byte, calculated: byte)

  /** The listener's module-level state; `lastFrame` is the clock reading taken
      at the previous frame completion. */
  datatype State = State(
    rawFrame: seq<byte>,
    frameByte: nat,
    checksumCalc: byte,
    checksum: byte,
    validFrame: bool,
    isBeginning: bool,
    frameSeq: byte,
    entropyKey: byte,
    powerSetting: byte,
    configFlags: byte,
    eabs: byte,
    lastFrame: int)

  datatype Outcome = Outcome(state: State, event: Event)

  datatype Trace = Trace(state: State, events: seq<Event>)

  /** The state right after start-up, `start` being the clock then. */
  function Initial(start: int): (s: State)
    ensures Inv(s)
  {
    State(seq(FrameSize, _ => 0), 0, 0, 0, true, true, 0, 0, 0, 0, 0, start)
  }

  /** XOR of all bytes of `q`; 0 for no bytes. */
  function XorOf(q: seq<byte>): byte
  {
    if q == [] then 0 else Xor(XorOf(q[..|q| - 1]), q[|q| - 1])
  }

  /** The buffer has its fixed size and the cursor indexes into it. */
  predicate Shaped(s: State)
  {
    |s.rawFrame| == FrameSize && s.frameByte < FrameSize
  }

  /** Each named field equals the buffer slot it is copied from. */
  ghost predicate Mirrors(s: State)
    requires |s.rawFrame| == FrameSize
  {
    s.frameSeq == s.rawFrame[2]
    && s.entropyKey == s.rawFrame[5]
    && s.powerSetting == s.rawFrame[7]
    && s.configFlags == s.rawFrame[9]
    && s.eabs == s.rawFrame[10]
    && s.checksum == s.rawFrame[LastPos]
  }

  /** The frame in progress: the accumulator is the XOR of the bytes taken so
      far, and those bytes passed the prefix and first-sequence checks. */
  ghost predicate InProgress(s: State)
    requires Shaped(s)
  {
    s.checksumCalc == XorOf(s.rawFrame[..s.frameByte])
    && (s.frameByte > 0 ==> s.rawFrame[0] == Magic0)
    && (s.frameByte > 1 ==> s.rawFrame[1] == Magic1)
    && (s.frameByte > 2 ==> !s.isBeginning)
  }

  /** What holds between two bytes: no frame is pending as invalid, the frame
      in progress is consistent, the named fields mirror the buffer, and while
      the decoder waits for its first frame no checksum byte has been stored. */
  ghost predicate Inv(s: State)
  {
    Shaped(s) && s.validFrame && InProgress(s) && Mirrors(s)
    && (s.isBeginning ==> s.checksum == 0)
  }

  /** The byte `b` fails the check of cursor position `pos`. */
  predicate Invalidates(pos: nat, isBeginning: bool, b: byte)
  {
    (pos == 0 && b != Magic0)
    || (pos == 1 && b != Magic1)
    || (pos == 2 && isBeginning && b != FirstSequence)
  }

  /** The accept test applied at every frame end, valid or not. */
  predicate ChecksumAccepted(calculated: byte, parsed: byte)
  {
    calculated != 0 && calculated == parsed
  }

  /** The values printed for an accepted frame, read from buffer `raw`. */
  function ReadoutOf(raw: seq<byte>, interval: int): Readout
    requires |raw| == FrameSize
  {
    Readout(interval, DecodeFlag(raw[6], FlagPas), DecodeFlag(raw[6], FlagCruiseCtl),
            DecodeFlag(raw[6], FlagSoftStart), raw[7], raw[10])
  }

  /** A named field after the byte `b` has been taken at cursor position
      `pos`: the byte, when `pos` is the field's own position `at`. */
  function Stored(pos: nat, at: nat, b: byte, prev: byte): (v: byte)
  {
    if pos == at then b else prev
  }

  /** The synchronisation flag after byte `b` at position `pos`: the sequence
      byte clears it unless it is the rejected first sequence. */
  function StillBeginning(pos: nat, isBeginning: bool, b: byte): bool
  {
    if pos == 2 then (if isBeginning && b != FirstSequence then isBeginning else false)
    else isBeginning
  }

  /** The first half of a pass of the read loop: byte `b` is stored at the
      cursor, checked against what its position demands, and copied into the
      named field its position carries. */
  function Dispatch(s: State, b: byte): (t: State)
    requires Shaped(s)
    ensures Shaped(t) && t.rawFrame == s.rawFrame[s.frameByte := b]
    ensures t.frameByte == s.frameByte && t.checksumCalc == s.checksumCalc && t.lastFrame == s.lastFrame
  {
    var pos := s.frameByte;
    State(
      s.rawFrame[pos := b],
      pos,
      s.checksumCalc,
      Stored(pos, LastPos, b, s.checksum),
      s.validFrame && !Invalidates(pos, s.isBeginning, b),
      StillBeginning(pos, s.isBeginning, b),
      Stored(pos, 2, b, s.frameSeq),
      Stored(pos, 5, b, s.entropyKey),
      Stored(pos, 7, b, s.powerSetting),
      Stored(pos, 9, b, s.configFlags),
      Stored(pos, 10, b, s.eabs),
      s.lastFrame)
  }

  /** The event reported when a frame ends in state `t`, the clock reading `now`. */
  function FrameEnd(t: State, now: int): (e: Event)
    requires |t.rawFrame| == FrameSize
    ensures e != NoEvent && e.raw == t.rawFrame
    ensures e.Decoded? <==> ChecksumAccepted(t.checksumCalc, t.checksum)
  {
    if t.checksumCalc == 0 || t.checksum != t.checksumCalc then Rejected(t.rawFrame, t.checksum, t.checksumCalc)
    else Decoded(t.rawFrame, ReadoutOf(t.rawFrame, now - t.lastFrame))
  }

  /** One pass of the read loop on byte `b`, the clock reading `now` standing
      for the time taken at a frame end: after the dispatch, a byte before
      position 14 of a still valid frame is XORed into the accumulator and
      advances the cursor; any other byte ends the frame. */
  function Step(s: State, b: byte, now: int): (r: Outcome)
    requires Shaped(s)
    ensures Shaped(r.state) && r.state.rawFrame == s.rawFrame[s.frameByte := b]
    ensures r.event == NoEvent <==> r.state.frameByte == s.frameByte + 1
    ensures r.event != NoEvent <==> r.state.frameByte == 0
  {
    var t := Dispatch(s, b);
    if s.frameByte < LastPos && t.validFrame then
      Outcome(t.(checksumCalc := Xor(s.checksumCalc, b), frameByte := s.frameByte + 1), NoEvent)
    else
      Outcome(t.(lastFrame := now, frameByte := 0, checksumCalc := 0, validFrame := true), FrameEnd(t, now))
  }

  /** The pass of the read loop with the accept test corrected to also
      require a valid frame (`not valid_frame or checksum_calc == 0 or ...`):
      a frame ended early by a failed check is rejected even when the
      accumulator happens to equal the stored checksum. Everything else is
      as in Step. */
  function StepChecked(s: State, b: byte, now: int): (r: Outcome)
    requires Shaped(s)
    ensures r.state == Step(s, b, now).state
  {
    var o := Step(s, b, now);
    if o.event.Decoded? && !Dispatch(s, b).validFrame
    then Outcome(o.state, Rejected(o.state.rawFrame, o.state.checksum, s.checksumCalc))
    else o
  }

  /** The read loop over a whole byte stream; `times[i]` is the clock as byte
      `bytes[i]` is processed. */
  function Run(s: State, bytes: seq<byte>, times: seq<int>): (r: Trace)
    requires Shaped(s) && |times| == |bytes|
    ensures Shaped(r.state) && |r.events| == |bytes|
    decreases |bytes|
  {
    if bytes == [] then Trace(s, [])
    else
      var t := Run(s, bytes[..|bytes| - 1], times[..|times| - 1]);
      var o := Step(t.state, bytes[|bytes| - 1], times[|times| - 1]);
      Trace(o.state, t.events + [o.event])
  }

  lemma XorOfSnoc(q: seq<byte>, b: byte)
    ensures XorOf(q + [b]) == Xor(XorOf(q), b)
  {
    assert (q + [b])[..|q|] == q;
  }

  lemma DispatchKeepsMirrors(s: State, b: byte)
    requires Shaped(s) && Mirrors(s)
    ensures Mirrors(Dispatch(s, b))
  {
  }

  /** A byte that does not end the frame extends the frame in progress. */
  lemma AdvanceKeepsProgress(s: State, b: byte, now: int)
    requires Shaped(s) && InProgress(s)
    requires Step(s, b, now).event == NoEvent
    ensures InProgress(Step(s, b, now).state)
  {
    var r := Step(s, b, now).state;
    var pos := s.frameByte;
    assert r.rawFrame[..pos + 1] == s.rawFrame[..pos] + [b];
    XorOfSnoc(s.rawFrame[..pos], b);
  }

  lemma StepKeepsMirrors(s: State, b: byte, now: int)
    requires Shaped(s) && Mirrors(s)
    ensures Mirrors(Step(s, b, now).state)
  {
    DispatchKeepsMirrors(s, b);
  }

  /** A byte that ends the frame leaves an empty frame in progress. */
  lemma CloseEmptiesProgress(s: State, b: byte, now: int)
    requires Shaped(s)
    requires Step(s, b, now).event != NoEvent
    ensures InProgress(Step(s, b, now).state)
  {
    var r := Step(s, b, now).state;
    assert r.rawFrame[..0] == [];
  }

  /** The checksum is stored only at position 14, which a decoder still
      waiting for its first frame never reaches. */
  lemma StepKeepsFirstChecksum(s: State, b: byte, now: int)
    requires Shaped(s) && InProgress(s) && (s.isBeginning ==> s.checksum == 0)
    ensures var r := Step(s, b, now).state;
      r.isBeginning ==> r.checksum == 0
  {
  }

  /** Every byte keeps the between-bytes invariant. */
  lemma StepKeepsInv(s: State, b: byte, now: int)
    requires Inv(s)
    ensures Inv(Step(s, b, now).state)
  {
    StepKeepsMirrors(s, b, now);
    StepKeepsFirstChecksum(s, b, now);
    if Step(s, b, now).event == NoEvent {
      AdvanceKeepsProgress(s, b, now);
    } else {
      CloseEmptiesProgress(s, b, now);
    }
  }

  lemma {:induction false} RunKeepsInv(s: State, bytes: seq<byte>, times: seq<int>)
    requires Inv(s) && |times| == |bytes|
    ensures Inv(Run(s, bytes, times).state)
    decreases |bytes|
  {
    if bytes != [] {
      RunKeepsInv(s, bytes[..|bytes| - 1], times[..|times| - 1]);
      var t := Run(s, bytes[..|bytes| - 1], times[..|times| - 1]);
      StepKeepsInv(t.state, bytes[|bytes| - 1], times[|times| - 1]);
    }
  }

  /** The listener's state variables and receive buffer, updated in place. */
  class Decoder {
    var rawFrame: array<byte>
    var frameByte: nat
    var checksumCalc: byte
    var checksum: byte
    var validFrame: bool
    var isBeginning: bool
    var frameSeq: byte
    var entropyKey: byte
    var powerSetting: byte
    var configFlags: byte
    var eabs: byte
    var lastFrame: int

    ghost function Abstract(): State
      reads this, rawFrame
    {
      State(rawFrame[..], frameByte, checksumCalc, checksum, validFrame, isBeginning,
            frameSeq, entropyKey, powerSetting, configFlags, eabs, lastFrame)
    }

    ghost predicate Valid()
      reads this, rawFrame
    {
      Inv(Abstract())
    }

    /** Start-up: a zeroed 15-byte buffer, the decoder waiting for its first
        frame, the clock read once. */
    constructor (start: int)
      ensures Valid() && fresh(rawFrame)
      ensures Abstract() == Initial(start)
    {
      rawFrame := new byte[FrameSize](_ => 0);
      frameByte := 0;
      checksumCalc := 0;
      checksum := 0;
      validFrame := true;
      isBeginning := true;
      frameSeq := 0;
      entropyKey := 0;
      powerSetting := 0;
      configFlags := 0;
      eabs := 0;
      lastFrame := start;
      new;
      assert rawFrame[..] == seq(FrameSize, _ => 0);
    }

    /** Stores byte `b` at the cursor and runs the check or the field copy
        that the cursor position calls for. */
    method Take(b: byte)
      requires rawFrame.Length == FrameSize && frameByte < FrameSize
      modifies this, rawFrame
      ensures rawFrame == old(rawFrame)
      ensures Abstract() == Dispatch(old(Abstract()), b)
    {
      rawFrame[frameByte] := b;

      if frameByte == 0 {
        if b != Magic0 {
          validFrame := false;
        }
      } else if frameByte == 1 {
        if b != Magic1 {
          validFrame := false;
        }
      } else if frameByte == 2 {
        frameSeq := b;
        if isBeginning && frameSeq != FirstSequence {
          validFrame := false;
        } else {
          isBeginning := false;
        }
      } else if frameByte == 5 {
        entropyKey := b;
      } else if frameByte == 7 {
        powerSetting := b;
      } else if frameByte == 9 {
        configFlags := b;
      } else if frameByte == 10 {
        eabs := b;
      } else if frameByte == LastPos {
        checksum := b;
      }
    }

    /** Ends the frame at the cursor: takes the time lapse, reports the frame
        and resets the cursor, the accumulator and the validity flag. */
    method Close(now: int) returns (event: Event)
      requires rawFrame.Length == FrameSize
      modifies this
      ensures rawFrame == old(rawFrame)
      ensures event == FrameEnd(old(Abstract()), now)
      ensures Abstract() == old(Abstract()).(lastFrame := now, frameByte := 0, checksumCalc := 0, validFrame := true)
    {
      var deltaTime := now - lastFrame;
      lastFrame := now;
      if checksumCalc == 0 || checksum != checksumCalc {
        event := Rejected(rawFrame[..], checksum, checksumCalc);
      } else {
        var pas := DecodeFlag(rawFrame[6], FlagPas);
        var cruiseCtl := DecodeFlag(rawFrame[6], FlagCruiseCtl);
        var softStart := DecodeFlag(rawFrame[6], FlagSoftStart);
        event := Decoded(rawFrame[..], Readout(deltaTime, pas, cruiseCtl, softStart, rawFrame[7], rawFrame[10]));
      }
      frameByte := 0;
      checksumCalc := 0;
      validFrame := true;
    }

    /** Processes one received byte. */
    method Feed(b: byte, now: int) returns (event: Event)
      requires Valid()
      modifies this, rawFrame
      ensures Valid() && rawFrame == old(rawFrame)
      ensures Outcome(Abstract(), event) == Step(old(Abstract()), b, now)
      ensures forall i :: 0 <= i < FrameSize && i != old(frameByte) ==> rawFrame[i] == old(rawFrame[i])
    {
      ghost var before := Abstract();
      Take(b);
      ghost var t := Abstract();

      if frameByte < LastPos && validFrame {
        checksumCalc := Xor(checksumCalc, b);
        frameByte := frameByte + 1;
        event := NoEvent;
        assert Abstract() == t.(checksumCalc := Xor(before.checksumCalc, b), frameByte := before.frameByte + 1);
      } else {
        event := Close(now);
      }
      StepKeepsInv(before, b, now);
    }

    /** The read loop: feeds every byte of the stream in order and collects
        one event per byte. */
    method Listen(bytes: seq<byte>, times: seq<int>) returns (events: seq<Event>)
      requires Valid() && |times| == |bytes|
      modifies this, rawFrame
      ensures Valid() && rawFrame == old(rawFrame)
      ensures Trace(Abstract(), events) == Run(old(Abstract()), bytes, times)
    {
      events := [];
      var i := 0;
      while i < |bytes|
        invariant 0 <= i <= |bytes|
        invariant Valid() && rawFrame == old(rawFrame)
        invariant Trace(Abstract(), events) == Run(old(Abstract()), bytes[..i], times[..i])
      {
        var event := Feed(bytes[i], times[i]);
        events := events + [event];
        assert bytes[..i + 1][..i] == bytes[..i];
        assert times[..i + 1][..i] == times[..i];
        i := i + 1;
      }
      assert bytes[..i] == bytes && times[..i] == times;
    }
  }
}
