/** Properties of the frame decoder: what a single byte does, what a whole
    well-prefixed frame yields, how the synchronisation flag moves, and the
    consequence of comparing early-ended frames against a stale checksum. */
module LcdDecoderProperties {
  import opened LcdFields
  import opened LcdDecoder

  // ---- one byte

  /** A frame ends on exactly two kinds of byte: the one at position 14, and
      the one that fails its position's check. Every other byte is XORed into
      the accumulator and advances the cursor by one. */
  lemma FrameEndsExactly(s: State, b: byte, now: int)
    requires Shaped(s) && s.validFrame
    ensures var o := Step(s, b, now);
      (o.event == NoEvent <==> s.frameByte < LastPos && !Invalidates(s.frameByte, s.isBeginning, b))
      && (o.event == NoEvent ==> o.state.checksumCalc == Xor(s.checksumCalc, b))
  {
  }

  /** At every frame end, accepted or not, the cursor, the accumulator and the
      validity flag are reset; the synchronisation flag, the stored checksum
      and the buffer keep what this byte left in them, and the clock reading
      is recorded. */
  lemma FrameEndResets(s: State, b: byte, now: int)
    requires Shaped(s)
    requires Step(s, b, now).event != NoEvent
    ensures var r := Step(s, b, now).state;
      r.frameByte == 0 && r.checksumCalc == 0 && r.validFrame
      && r.isBeginning == StillBeginning(s.frameByte, s.isBeginning, b)
      && r.checksum == (if s.frameByte == LastPos then b else s.checksum)
      && r.rawFrame == s.rawFrame[s.frameByte := b]
      && r.lastFrame == now
  {
  }

  /** The accept rule: a frame end reports Decoded exactly when the
      accumulator, which holds neither the checksum byte nor the byte that
      ended the frame, is non-zero and equals the stored checksum; the
      reported values are then read from the buffer. */
  lemma AcceptRule(s: State, b: byte, now: int)
    requires Shaped(s)
    requires Step(s, b, now).event != NoEvent
    ensures var o := Step(s, b, now);
      (o.event.Decoded? <==> s.checksumCalc != 0 && s.checksumCalc == o.state.checksum)
      && (o.event.Decoded? ==>
            o.event.raw == o.state.rawFrame
            && o.event.readout == ReadoutOf(o.state.rawFrame, now - s.lastFrame))
      && (o.event.Rejected? ==>
            o.event == Rejected(o.state.rawFrame, o.state.checksum, s.checksumCalc))
  {
  }

  /** A frame whose accumulator is 0 is never reported as decoded. */
  lemma ZeroChecksumRejected(s: State, b: byte, now: int)
    requires Shaped(s) && s.checksumCalc == 0
    ensures !Step(s, b, now).event.Decoded?
  {
  }

  /** A wrong first byte ends the frame on that byte, and the frame is always
      rejected: nothing has been accumulated yet. */
  lemma BadFirstByte(s: State, b: byte, now: int)
    requires Inv(s) && s.frameByte == 0 && b != Magic0
    ensures var o := Step(s, b, now);
      o.event.Rejected? && o.state.frameByte == 0
  {
    assert s.rawFrame[..0] == [];
  }

  lemma XorOfNext(q: seq<byte>, k: nat)
    requires k < |q|
    ensures XorOf(q[..k + 1]) == Xor(XorOf(q[..k]), q[k])
  {
    assert q[..k + 1][..k] == q[..k];
  }

  /** A wrong second byte ends the frame on that byte; the accumulator then
      holds only the magic 0x01, so the frame is reported as decoded exactly
      when the checksum left by an earlier frame is 0x01. */
  lemma BadSecondByte(s: State, b: byte, now: int)
    requires Inv(s) && s.frameByte == 1 && b != Magic1
    ensures var o := Step(s, b, now);
      o.event != NoEvent && o.state.frameByte == 0
      && (o.event.Decoded? <==> s.checksum == 0x01)
  {
    assert s.rawFrame[..0] == [];
    XorOfNext(s.rawFrame, 0);
    assert Xor(0, 0x01) == 0x01;
  }

  /** While the decoder waits for its first frame, a sequence byte other than
      2 ends the frame on that byte and keeps the decoder waiting. The frame is
      always rejected: the accumulator holds 0x01 ^ 0x03, while no checksum
      byte has been stored yet. */
  lemma BadFirstSequence(s: State, b: byte, now: int)
    requires Inv(s) && s.frameByte == 2 && s.isBeginning && b != FirstSequence
    ensures var o := Step(s, b, now);
      o.event.Rejected? && o.event.calculated == 0x02
      && o.state.frameByte == 0 && o.state.isBeginning
  {
    assert s.rawFrame[..0] == [];
    XorOfNext(s.rawFrame, 0);
    XorOfNext(s.rawFrame, 1);
    assert Xor(Xor(0, 0x01), 0x03) == 0x02;
  }

  /** From start-up, whatever bytes came before, a bad sequence byte read
      while the decoder still waits for its first frame is rejected. */
  lemma BadFirstSequenceRejected(start: int, bytes: seq<byte>, times: seq<int>, b: byte, now: int)
    requires |times| == |bytes|
    requires var t := Run(Initial(start), bytes, times).state;
      t.frameByte == 2 && t.isBeginning && b != FirstSequence
    ensures Step(Run(Initial(start), bytes, times).state, b, now).event.Rejected?
  {
    RunKeepsInv(Initial(start), bytes, times);
    BadFirstSequence(Run(Initial(start), bytes, times).state, b, now);
  }

  // ---- the synchronisation flag

  /** The flag is cleared by a sequence byte that is 2 or arrives once the
      flag is already clear, whatever the frame's checksum turns out to be,
      and by nothing else; it is never set. */
  lemma SyncFlagStep(s: State, b: byte, now: int)
    requires Shaped(s)
    ensures Step(s, b, now).state.isBeginning
            == (s.isBeginning && !(s.frameByte == 2 && b == FirstSequence))
  {
  }

  /** Once synchronised, the decoder stays synchronised for the rest of any
      byte stream. */
  lemma {:induction false} SyncIsPermanent(s: State, bytes: seq<byte>, times: seq<int>)
    requires Shaped(s) && !s.isBeginning && |times| == |bytes|
    ensures !Run(s, bytes, times).state.isBeginning
    decreases |bytes|
  {
    if bytes != [] {
      SyncIsPermanent(s, bytes[..|bytes| - 1], times[..|times| - 1]);
      var t := Run(s, bytes[..|bytes| - 1], times[..|times| - 1]);
      SyncFlagStep(t.state, bytes[|bytes| - 1], times[|times| - 1]);
    }
  }

  // ---- byte streams and whole frames

  /** Running two streams one after the other is running their concatenation. */
  lemma {:induction false} RunAppend(s: State, a: seq<byte>, ta: seq<int>, b: seq<byte>, tb: seq<int>)
    requires Shaped(s) && |ta| == |a| && |tb| == |b|
    ensures var first := Run(s, a, ta);
      var second := Run(first.state, b, tb);
      Run(s, a + b, ta + tb) == Trace(second.state, first.events + second.events)
    decreases |b|
  {
    if b == [] {
      assert a + b == a && ta + tb == ta;
    } else {
      var b', tb' := b[..|b| - 1], tb[..|tb| - 1];
      assert (a + b)[..|a + b| - 1] == a + b';
      assert (ta + tb)[..|ta + tb| - 1] == ta + tb';
      RunAppend(s, a, ta, b', tb');
    }
  }

  /** A frame that starts with the magic prefix and, while the decoder waits
      for its first frame, carries sequence number 2. */
  predicate WellPrefixed(isBeginning: bool, f: seq<byte>)
  {
    |f| == FrameSize && f[0] == Magic0 && f[1] == Magic1 && (isBeginning ==> f[2] == FirstSequence)
  }

  /** The state after the first `k` bytes of frame `f`, fed from state `s` at
      cursor 0: the cursor is at k, the buffer holds those bytes in front of
      the previous frame's stale ones, the accumulator is their XOR, and the
      synchronisation flag is cleared once the sequence byte is past. */
  ghost predicate AfterPrefix(s: State, t: State, f: seq<byte>, k: nat)
    requires Shaped(s) && |f| == FrameSize && k <= LastPos
  {
    Shaped(t)
    && t.frameByte == k
    && t.rawFrame == f[..k] + s.rawFrame[k..]
    && t.checksumCalc == XorOf(f[..k])
    && t.validFrame
    && t.isBeginning == (s.isBeginning && k <= 2)
    && t.checksum == s.checksum
    && t.lastFrame == s.lastFrame
  }

  lemma PrefixStep(s: State, t: State, f: seq<byte>, k: nat, now: int)
    requires Shaped(s) && WellPrefixed(s.isBeginning, f) && k < LastPos
    requires AfterPrefix(s, t, f, k)
    ensures Step(t, f[k], now).event == NoEvent
    ensures AfterPrefix(s, Step(t, f[k], now).state, f, k + 1)
  {
    assert !Invalidates(k, t.isBeginning, f[k]);
    XorOfNext(f, k);
    assert (f[..k] + s.rawFrame[k..])[k := f[k]] == f[..k + 1] + s.rawFrame[k + 1..];
  }

  /** After the first k < 15 bytes of a well-prefixed frame, fed from cursor
      0, no frame has ended and the decoder is in the AfterPrefix state. */
  lemma {:induction false} FramePrefix(s: State, f: seq<byte>, times: seq<int>, k: nat)
    requires Shaped(s) && s.validFrame && s.frameByte == 0 && s.checksumCalc == 0
    requires WellPrefixed(s.isBeginning, f) && |times| == FrameSize && k <= LastPos
    ensures var t := Run(s, f[..k], times[..k]);
      AfterPrefix(s, t.state, f, k)
      && (forall i :: 0 <= i < k ==> t.events[i] == NoEvent)
  {
    if k == 0 {
      assert f[..0] == [] && times[..0] == [];
      assert f[..0] + s.rawFrame[0..] == s.rawFrame;
    } else {
      var j := k - 1;
      FramePrefix(s, f, times, j);
      assert f[..k][..j] == f[..j] && times[..k][..j] == times[..j];
      var t := Run(s, f[..j], times[..j]);
      PrefixStep(s, t.state, f, j, times[j]);
    }
  }

  /** The byte at position 14 of a frame that is still valid ends it. */
  lemma LastByte(t: State, f: seq<byte>, now: int)
    requires Shaped(t) && t.validFrame && t.frameByte == LastPos
    requires |f| == FrameSize && t.rawFrame == f[..LastPos] + [t.rawFrame[LastPos]]
    ensures var o := Step(t, f[LastPos], now);
      o.event == (if t.checksumCalc != 0 && f[LastPos] == t.checksumCalc
                  then Decoded(f, ReadoutOf(f, now - t.lastFrame))
                  else Rejected(f, f[LastPos], t.checksumCalc))
      && o.state.rawFrame == f && o.state.frameByte == 0
      && o.state.isBeginning == t.isBeginning
      && o.state.checksum == f[LastPos] && o.state.lastFrame == now
  {
    assert t.rawFrame[LastPos := f[LastPos]] == f;
  }

  /** The outcome of a whole well-prefixed frame fed from cursor 0: fourteen
      bytes without an event, then one event for the frame, Decoded with the
      readout taken from the frame exactly when the XOR of its first 14 bytes
      is non-zero and equals its last byte, Rejected otherwise. The decoder is
      then synchronised, back at cursor 0, and holds the frame in its buffer. */
  lemma FrameOutcome(s: State, f: seq<byte>, times: seq<int>)
    requires Inv(s) && s.frameByte == 0
    requires WellPrefixed(s.isBeginning, f) && |times| == FrameSize
    ensures var t := Run(s, f, times);
      var sum := XorOf(f[..LastPos]);
      (forall i :: 0 <= i < LastPos ==> t.events[i] == NoEvent)
      && t.events[LastPos]
         == (if sum != 0 && f[LastPos] == sum
             then Decoded(f, ReadoutOf(f, times[LastPos] - s.lastFrame))
             else Rejected(f, f[LastPos], sum))
      && Inv(t.state)
      && t.state.rawFrame == f && t.state.frameByte == 0 && !t.state.isBeginning
      && t.state.checksum == f[LastPos] && t.state.lastFrame == times[LastPos]
  {
    FramePrefix(s, f, times, LastPos);
    RunKeepsInv(s, f, times);
    var t14 := Run(s, f[..LastPos], times[..LastPos]);
    assert f[..LastPos] + s.rawFrame[LastPos..] == f[..LastPos] + [s.rawFrame[LastPos]];
    LastByte(t14.state, f, times[LastPos]);
    assert f[..|f| - 1] == f[..LastPos] && times[..|times| - 1] == times[..LastPos];
  }

  /** A frame decoded at its last byte holds, in the buffer it reports, 15
      bytes whose XOR is 0: the checksum byte cancels the other fourteen. */
  lemma DecodedFrameXorsToZero(s: State, b: byte, now: int)
    requires Inv(s) && s.frameByte == LastPos
    requires Step(s, b, now).event.Decoded?
    ensures XorOf(Step(s, b, now).event.raw) == 0
  {
    var f := Step(s, b, now).event.raw;
    assert f[..LastPos] == s.rawFrame[..LastPos];
    XorOfNext(f, LastPos);
    assert f[..FrameSize] == f;
    XorNatUnits(b as nat);
  }

  // ---- a concrete frame

  /** The frame 01 03 02 00 00 AB 00 64 00 32 C8 00 00 00 35: its last byte is
      the XOR of the others. */
  function SampleFrame(): (f: seq<byte>)
    ensures |f| == FrameSize
  {
    [0x01, 0x03, 0x02, 0x00, 0x00, 0xAB, 0x00, 0x64, 0x00, 0x32, 0xC8, 0x00, 0x00, 0x00, 0x35]
  }

  lemma SampleChecksumFront()
    ensures XorOf(SampleFrame()[..7]) == 0xAB
  {
    var f := SampleFrame();
    assert f[..0] == [];
    XorOfNext(f, 0);
    XorOfNext(f, 1);
    assert Xor(0x01, 0x03) == 0x02;
    XorOfNext(f, 2);
    XorOfNext(f, 3);
    XorOfNext(f, 4);
    XorOfNext(f, 5);
    XorOfNext(f, 6);
  }

  lemma SampleChecksum()
    ensures XorOf(SampleFrame()[..LastPos]) == 0x35
  {
    var f := SampleFrame();
    SampleChecksumFront();
    XorOfNext(f, 7);
    assert Xor(0xAB, 0x64) == 0xCF;
    XorOfNext(f, 8);
    XorOfNext(f, 9);
    assert Xor(0xCF, 0x32) == 0xFD;
    XorOfNext(f, 10);
    assert Xor(0xFD, 0xC8) == 0x35;
    XorOfNext(f, 11);
    XorOfNext(f, 12);
    XorOfNext(f, 13);
  }

  /** Fed to a freshly started decoder, the sample frame is decoded: power
      limit 0x64, EABS level 0xC8 and all three switches off. */
  lemma SampleFrameDecoded(start: int, times: seq<int>)
    requires |times| == FrameSize
    ensures var t := Run(Initial(start), SampleFrame(), times);
      t.events[LastPos].Decoded?
      && t.events[LastPos].readout
         == Readout(times[LastPos] - start, 0, 0, 0, 0x64, 0xC8)
  {
    SampleChecksum();
    FrameOutcome(Initial(start), SampleFrame(), times);
  }

  // ---- the stale checksum

  /** A frame that reaches position 14 with the stored checksum 0x01: the
      XOR of its first 14 bytes, 01 ^ 03 ^ 02 ^ 01, is its last byte. */
  function StaleSample(): (f: seq<byte>)
    ensures |f| == FrameSize
  {
    [0x01, 0x03, 0x02, 0x01, 0x00, 0x00, 0x00, 0x00, 0x00, 0x00, 0x00, 0x00, 0x00, 0x00, 0x01]
  }

  lemma StaleSampleChecksum()
    ensures XorOf(StaleSample()[..LastPos]) == 0x01
  {
    var f := StaleSample();
    assert f[..0] == [];
    XorOfNext(f, 0);
    XorOfNext(f, 1);
    assert Xor(0x01, 0x03) == 0x02;
    XorOfNext(f, 2);
    XorOfNext(f, 3);
    var k := 4;
    while k < LastPos
      invariant 4 <= k <= LastPos
      invariant XorOf(f[..k]) == 0x01
    {
      XorOfNext(f, k);
      k := k + 1;
    }
  }

  /** As written, the accept test does not look at the validity flag. After
      StaleSample has been decoded, the two bytes 01 00, whose second byte
      fails the prefix check, end a frame that is reported as decoded,
      because the accumulator 0x01 equals the checksum StaleSample left. */
  lemma StaleChecksumAcceptsBadFrame(start: int)
    ensures var t := Run(Initial(start), StaleSample() + [0x01, 0x00], seq(FrameSize + 2, _ => start));
      |t.events| == FrameSize + 2 && t.events[FrameSize + 1].Decoded?
  {
    var s := Initial(start);
    var f := StaleSample();
    var times := seq(FrameSize, _ => start);
    assert seq(FrameSize + 2, _ => start) == times + [start, start];
    StaleSampleChecksum();
    FrameOutcome(s, f, times);
    RunAppend(s, f, times, [0x01, 0x00], [start, start]);
    RunKeepsInv(s, f, times);
    StaleTail(Run(s, f, times).state, start);
  }

  /** The two-byte tail 01 00 after a frame whose stored checksum is 0x01. */
  lemma StaleTail(u: State, now: int)
    requires Inv(u) && u.frameByte == 0 && u.checksum == 0x01
    ensures Run(u, [0x01, 0x00], [now, now]).events[1].Decoded?
  {
    var tail: seq<byte> := [0x01, 0x00];
    var v := Step(u, 0x01, now);
    StepKeepsInv(u, 0x01, now);
    BadSecondByte(v.state, 0x00, now);
    assert tail[..1] == [0x01] && [0x01][..0] == [];
    assert [now, now][..1] == [now] && [now][..0] == [];
  }

  /** The corrected step never reports a frame ended early: whatever it
      decodes reached position 14, begins with the magic prefix, and carries
      as its last byte the non-zero XOR of the first 14. */
  lemma CheckedDecodesOnlyCompleteFrames(s: State, b: byte, now: int)
    requires Inv(s)
    requires StepChecked(s, b, now).event.Decoded?
    ensures var raw := StepChecked(s, b, now).state.rawFrame;
      s.frameByte == LastPos
      && raw[0] == Magic0 && raw[1] == Magic1
      && b == raw[LastPos] && b == XorOf(raw[..LastPos]) && b != 0
  {
    var raw := StepChecked(s, b, now).state.rawFrame;
    assert raw[..LastPos] == s.rawFrame[..LastPos];
  }

  /** On a byte that does not fail its position's check the corrected step is
      the step as written. */
  lemma CheckedAgreesOnValidBytes(s: State, b: byte, now: int)
    requires Shaped(s) && s.validFrame && !Invalidates(s.frameByte, s.isBeginning, b)
    ensures StepChecked(s, b, now) == Step(s, b, now)
  {
  }
}
