/** The ASCII receive path and the per-cycle flag machine of BluetoothTimedService.

    Received text is appended to a buffer. While the buffer holds at least one frame length
    (235 characters), the first ':' is searched for. A full frame starting there is cut out,
    decoded and published, and the buffer up to its end is deleted. A buffer without ':'
    is emptied. A ':' with fewer than 235 characters after it causes the text before it to
    be dropped. A frame whose count is non-zero causes a disconnect, and disconnecting
    clears the buffer. Each cycle resets the "processed" flag and arms a timeout that
    disconnects only when no frame was processed in that cycle. */
module TimedService {
  import opened Shared
  import opened HexText

  /** START_SEQUENCE */
  const StartSequence: char := ':'
  /** REQUIRED_LENGTH: characters in one frame */
  const RequiredLength: nat := 235

  /** A text of exactly one frame length, as cut out of the buffer. */
  type Frame = s: string | |s| == RequiredLength witness seq(RequiredLength, _ => StartSequence)

  /** The frame-length slice of `buffer` that starts at k. */
  function FrameFrom(buffer: string, k: nat): Frame
    requires k + RequiredLength <= |buffer|
  {
    buffer[k..k + RequiredLength]
  }

  /** `s.indexOf(c)`: the first position of c in s, or -1 when c does not occur. */
  function IndexOf(s: string, c: char): (k: int)
    ensures -1 <= k < |s|
    ensures k == -1 <==> c !in s
    ensures k >= 0 ==> s[k] == c && forall j :: 0 <= j < k ==> s[j] != c
  {
    if s == [] then -1
    else if s[0] == c then 0
    else
      var k := IndexOf(s[1..], c);
      if k == -1 then -1 else k + 1
  }

  /** getRequiredBytes: characters 97..101 read as a hex number, or 0 when they are not
      all hex digits. */
  function GetRequiredBytes(message: string): (count: nat)
    requires |message| >= 101
    ensures count < 65536
    ensures !MatchesHex(message[97..101]) ==> count == 0
  {
    var field := message[97..101];
    assert Pow16(4) == 65536;
    if MatchesHex(field) then HexValue(field) else 0
  }

  /** getRequiredByte: characters 127..129 read as a hex number and narrowed to a signed
      byte, or 0 when they are not both hex digits. */
  function GetRequiredByte(message: string): (status: JByte)
    requires |message| >= 129
    ensures !MatchesHex(message[127..129]) ==> status == 0
  {
    var field := message[127..129];
    if MatchesHex(field) then SignedByte(HexValue(field)) else 0
  }

  /** isErrorData: a frame whose count is 0 is an error frame; the status is not consulted. */
  predicate IsErrorData(requiredByte: JByte, requiredBytes: nat) {
    requiredBytes == 0
  }

  /** Which frames are error frames: those whose count field is not hex, or reads as zero,
      whatever their status field holds. */
  lemma ErrorFrame(message: string, status: JByte)
    requires |message| >= 129
    ensures IsErrorData(GetRequiredByte(message), GetRequiredBytes(message))
      <==> IsErrorData(status, GetRequiredBytes(message))
    ensures IsErrorData(GetRequiredByte(message), GetRequiredBytes(message))
      <==> !MatchesHex(message[97..101]) || forall i :: 97 <= i < 101 ==> message[i] == '0'
  {
    var field := message[97..101];
    if MatchesHex(field) {
      HexValueZero(field);
      assert forall i :: 97 <= i < 101 ==> message[i] == field[i - 97];
    }
  }

  /** The pair processValidMessage writes to the sink for a frame: a signed byte and a
      count below 65536. */
  function Decode(message: string): (r: Reading)
    requires |message| >= 129
    ensures -128 <= r.status < 128 && 0 <= r.count < 65536
  {
    Reading(GetRequiredByte(message) as int, GetRequiredBytes(message))
  }

  /** The sink writes for a sequence of frames, in order. */
  function Readings(messages: seq<Frame>): seq<Reading>
  {
    if messages == [] then []
    else Readings(messages[..|messages| - 1]) + [Decode(messages[|messages| - 1])]
  }

  lemma ReadingsSnoc(messages: seq<Frame>, message: Frame)
    ensures Readings(messages + [message]) == Readings(messages) + [Decode(message)]
  {
    assert (messages + [message])[..|messages|] == messages;
  }

  /** A count written as four hex digits at 97..101 is read back as that count. */
  lemma CountFieldRoundTrip(message: string, count: nat)
    requires |message| >= 101 && count < 65536 && message[97..101] == EncodeHex(count, 4)
    ensures GetRequiredBytes(message) == count
  {
    assert Pow16(4) == 65536;
    DecodeEncodeHex(count, 4);
  }

  /** A count read from hex digits, written back as four digits, is the field itself up to
      letter case: nothing of the field is lost or invented. */
  lemma CountFieldExact(message: string)
    requires |message| >= 101 && MatchesHex(message[97..101])
    ensures EncodeHex(GetRequiredBytes(message), 4) == ToUpper(message[97..101])
  {
    EncodeHexValue(message[97..101]);
  }

  /** A byte written as two hex digits (of its unsigned value) at 127..129 is read back as
      that byte. */
  lemma StatusFieldRoundTrip(message: string, status: JByte)
    requires |message| >= 129 && message[127..129] == EncodeHex(Unsigned(status), 2)
    ensures GetRequiredByte(message) == status
  {
    assert Pow16(2) == 256;
    DecodeEncodeHex(Unsigned(status), 2);
    ByteCastsInverse(status, 0);
  }

  /** A status read from two hex digits, written back, is the field itself up to letter
      case. */
  lemma StatusFieldExact(message: string)
    requires |message| >= 129 && MatchesHex(message[127..129])
    ensures EncodeHex(Unsigned(GetRequiredByte(message)), 2) == ToUpper(message[127..129])
  {
    var field := message[127..129];
    assert Pow16(2) == 256;
    ByteCastsInverse(0, HexValue(field));
    EncodeHexValue(field);
  }

  /** The example frame: count field "0010" and status field "1F" give 16 and 0x1F. */
  lemma ExampleFrame(message: string)
    requires |message| == RequiredLength && message[0] == StartSequence
    requires message[97..101] == "0010" && message[127..129] == "1F"
    ensures GetRequiredBytes(message) == 16 && GetRequiredByte(message) == 0x1F
  {
    ExampleCount(message);
    ExampleStatus(message);
  }

  lemma ExampleCount(message: string)
    requires |message| >= 101 && message[97..101] == "0010"
    ensures GetRequiredBytes(message) == 16
  {
    assert EncodeHex(16, 4) == "0010";
    CountFieldRoundTrip(message, 16);
  }

  lemma ExampleStatus(message: string)
    requires |message| >= 129 && message[127..129] == "1F"
    ensures GetRequiredByte(message) == 0x1F
  {
    assert EncodeHex(Unsigned(0x1F), 2) == "1F";
    StatusFieldRoundTrip(message, 0x1F);
  }

  /** What one run of processAccumulatedData does to a buffer: the frames it hands to
      processValidMessage, in order, the text left in the buffer, and whether a frame
      with a non-zero count made it disconnect. */
  datatype Drained = Drained(frames: seq<Frame>, rest: string, disconnected: bool)

  /** The values of the fields processAccumulatedData changes, as they were at some point. */
  datatype Snapshot = Snapshot(published: seq<Reading>, frames: seq<string>, disconnects: nat,
                               processed: bool, pending: bool)

  function Drain(buffer: string): Drained
    decreases |buffer|
  {
    if |buffer| < RequiredLength then Drained([], buffer, false)
    else
      var k := IndexOf(buffer, StartSequence);
      if k >= 0 && |buffer| >= k + RequiredLength then
        var frame := buffer[k..k + RequiredLength];
        if !IsErrorData(GetRequiredByte(frame), GetRequiredBytes(frame)) then
          // disconnect() empties the buffer and the delete that follows removes nothing
          Drained([frame], [], true)
        else
          var d := Drain(buffer[k + RequiredLength..]);
          Drained([frame] + d.frames, d.rest, d.disconnected)
      else if k == -1 then Drained([], [], false)
      else Drained([], buffer[k..], false)
  }

  /** Every frame one run of the loop hands on begins with ':'. */
  lemma {:induction false} DrainFramesStart(buffer: string)
    ensures forall i :: 0 <= i < |Drain(buffer).frames| ==> Drain(buffer).frames[i][0] == StartSequence
    decreases |buffer|
  {
    if |buffer| >= RequiredLength {
      var k := IndexOf(buffer, StartSequence);
      if k >= 0 && |buffer| >= k + RequiredLength {
        var frame := buffer[k..k + RequiredLength];
        if IsErrorData(GetRequiredByte(frame), GetRequiredBytes(frame)) {
          var d := Drain(buffer[k + RequiredLength..]);
          DrainFramesStart(buffer[k + RequiredLength..]);
          assert Drain(buffer).frames == [frame] + d.frames;
        }
      }
    }
  }

  /** One turn of the loop that cuts out a frame. */
  lemma DrainFrameStep(buffer: string, k: nat)
    requires |buffer| >= RequiredLength && k == IndexOf(buffer, StartSequence)
    requires |buffer| >= k + RequiredLength
    ensures var frame := buffer[k..k + RequiredLength];
      var t := Drain(buffer[k + RequiredLength..]);
      Drain(buffer) ==
        if IsErrorData(GetRequiredByte(frame), GetRequiredBytes(frame))
        then Drained([frame] + t.frames, t.rest, t.disconnected)
        else Drained([frame], [], true)
  {
  }

  /** An error frame (count 0) is handed on and the drain goes on after it. */
  lemma DrainErrorFrame(buffer: string, k: nat)
    requires |buffer| >= RequiredLength && k == IndexOf(buffer, StartSequence)
    requires |buffer| >= k + RequiredLength
    requires var frame := buffer[k..k + RequiredLength];
      IsErrorData(GetRequiredByte(frame), GetRequiredBytes(frame))
    ensures var t := Drain(buffer[k + RequiredLength..]);
      Drain(buffer) == Drained([buffer[k..k + RequiredLength]] + t.frames, t.rest, t.disconnected)
  {
    DrainFrameStep(buffer, k);
  }

  /** A frame with a non-zero count is the last one handed on, and the run disconnects. */
  lemma DrainCountFrame(buffer: string, k: nat)
    requires |buffer| >= RequiredLength && k == IndexOf(buffer, StartSequence)
    requires |buffer| >= k + RequiredLength
    requires var frame := buffer[k..k + RequiredLength];
      !IsErrorData(GetRequiredByte(frame), GetRequiredBytes(frame))
    ensures Drain(buffer) == Drained([buffer[k..k + RequiredLength]], [], true)
  {
    DrainFrameStep(buffer, k);
  }

  /** Buffer bound: what is left is shorter than a frame, is the end of the buffer, and is
      empty after a disconnect. */
  lemma {:induction false} DrainRest(buffer: string)
    ensures var d := Drain(buffer);
      && |d.rest| < RequiredLength
      && d.rest == buffer[|buffer| - |d.rest|..]
      && (d.disconnected ==> d.rest == [])
    decreases |buffer|
  {
    if |buffer| >= RequiredLength {
      var k := IndexOf(buffer, StartSequence);
      if k >= 0 && |buffer| >= k + RequiredLength {
        var frame := buffer[k..k + RequiredLength];
        var tail := buffer[k + RequiredLength..];
        if IsErrorData(GetRequiredByte(frame), GetRequiredBytes(frame)) {
          var t := Drain(tail);
          DrainErrorFrame(buffer, k);
          DrainRest(tail);
          assert tail[|tail| - |t.rest|..] == buffer[|buffer| - |t.rest|..];
        } else {
          DrainCountFrame(buffer, k);
        }
      } else if k == -1 {
        assert Drain(buffer).rest == [];
      } else {
        assert Drain(buffer) == Drained([], buffer[k..], false);
      }
    }
  }

  /** A buffer shorter than a frame is left exactly as it is, marker or not. */
  lemma DrainShortBuffer(buffer: string)
    requires |buffer| < RequiredLength
    ensures Drain(buffer) == Drained([], buffer, false)
  {
  }

  /** A buffer of at least a frame length without any ':' is emptied. */
  lemma DrainNoMarker(buffer: string)
    requires |buffer| >= RequiredLength && StartSequence !in buffer
    ensures Drain(buffer) == Drained([], [], false)
  {
  }

  /** Resynchronisation: with a ':' at k but fewer than a frame length from there, exactly
      the first k characters are dropped and what is left starts with ':'. */
  lemma DrainResync(buffer: string, k: nat)
    requires |buffer| >= RequiredLength
    requires k < |buffer| && buffer[k] == StartSequence
    requires forall j :: 0 <= j < k ==> buffer[j] != StartSequence
    requires |buffer| < k + RequiredLength
    ensures Drain(buffer) == Drained([], buffer[k..], false)
    ensures Drain(buffer).rest[0] == StartSequence && |Drain(buffer).rest| == |buffer| - k
  {
    assert IndexOf(buffer, StartSequence) == k;
  }

  /** Loop bookkeeping for processAccumulatedData: the frames taken so far (`done`) followed
      by what Drain still yields for the current buffer make up `d0`, the drain of the
      buffer the loop started from. */
  ghost predicate DrainProgress(d0: Drained, buffer: string, done: seq<Frame>, stopped: bool)
  {
    && (stopped ==> buffer == [])
    && var d := Drain(buffer);
       d0 == Drained(done + d.frames, d.rest, stopped || d.disconnected)
  }

  /** A complete frame with a non-zero count ends the loop: the buffer is empty and the
      disconnect is recorded. */
  lemma DrainProgressStop(d0: Drained, buffer: string, done: seq<Frame>, k: nat)
    requires DrainProgress(d0, buffer, done, false)
    requires |buffer| >= RequiredLength && k == IndexOf(buffer, StartSequence)
    requires |buffer| >= k + RequiredLength
    requires var frame := buffer[k..k + RequiredLength];
      !IsErrorData(GetRequiredByte(frame), GetRequiredBytes(frame))
    ensures DrainProgress(d0, [], done + [buffer[k..k + RequiredLength]], true)
  {
    var frame := buffer[k..k + RequiredLength];
    DrainCountFrame(buffer, k);
    assert Drain([]) == Drained([], [], false);
    assert done + [frame] + [] == done + [frame];
  }

  /** Frames `frames` occur in `buffer` in that order, each a contiguous slice and none
      overlapping the next. */
  ghost predicate InOrder(buffer: string, frames: seq<string>)
    decreases |frames|
  {
    frames == [] ||
    exists j: nat :: FrameAt(buffer, j, frames[0])
      && InOrder(buffer[j + RequiredLength..], frames[1..])
  }

  /** `frame` is the frame-length slice of `buffer` starting at j. */
  ghost predicate FrameAt(buffer: string, j: nat, frame: string) {
    j + RequiredLength <= |buffer| && buffer[j..j + RequiredLength] == frame
  }

  /** The state part way through processAccumulatedData: `done` are the frames handled so
      far, `stopped` says whether one of them made it disconnect, the buffer is where Drain
      goes on from, and the other fields s are their values s0 at the start followed by
      what those frames did. */
  ghost predicate Progress(d0: Drained, done: seq<Frame>, stopped: bool, s0: Snapshot,
                           buffer: string, s: Snapshot)
  {
    DrainProgress(d0, buffer, done, stopped) && Recorded(done, stopped, s0, s)
  }

  /** The fields s are s0 followed by the effects of the frames `done`. */
  ghost predicate Recorded(done: seq<Frame>, stopped: bool, s0: Snapshot, s: Snapshot) {
    && s.published == s0.published + Readings(done)
    && s.frames == s0.frames + done
    && s.disconnects == s0.disconnects + (if stopped then 1 else 0)
    && s.processed == (s0.processed || done != [])
    && s.pending == (s0.pending && !stopped)
  }

  /** Handling a frame with a non-zero count keeps Progress: it is published and recorded,
      the run disconnects, and the buffer is empty. */
  lemma ProgressFrameStop(d0: Drained, done: seq<Frame>, s0: Snapshot, buffer: string, k: nat,
                          s: Snapshot)
    requires Progress(d0, done, false, s0, buffer, s)
    requires |buffer| >= RequiredLength && k == IndexOf(buffer, StartSequence)
    requires |buffer| >= k + RequiredLength
    requires var frame := buffer[k..k + RequiredLength];
      !IsErrorData(GetRequiredByte(frame), GetRequiredBytes(frame))
    ensures var frame := buffer[k..k + RequiredLength];
      Progress(d0, done + [frame], true, s0, [],
               Snapshot(s.published + [Decode(frame)], s.frames + [frame], s.disconnects + 1,
                        true, false))
  {
    var frame := FrameFrom(buffer, k);
    assert DrainProgress(d0, [], done + [frame], true) by {
      DrainProgressStop(d0, buffer, done, k);
    }
    RecordedFrame(done, s0, s, frame, true);
  }

  /** Handling an error frame (count 0) keeps Progress: it is published and recorded, and
      the buffer continues after it. */
  lemma ProgressFrameContinue(d0: Drained, done: seq<Frame>, s0: Snapshot, buffer: string,
                              k: nat, s: Snapshot)
    requires Progress(d0, done, false, s0, buffer, s)
    requires |buffer| >= RequiredLength && k == IndexOf(buffer, StartSequence)
    requires |buffer| >= k + RequiredLength
    requires var frame := buffer[k..k + RequiredLength];
      IsErrorData(GetRequiredByte(frame), GetRequiredBytes(frame))
    ensures var frame := buffer[k..k + RequiredLength];
      Progress(d0, done + [frame], false, s0, buffer[k + RequiredLength..],
               Snapshot(s.published + [Decode(frame)], s.frames + [frame], s.disconnects,
                        true, s.pending))
  {
    DrainErrorFrame(buffer, k);
    ProgressShift(d0, done, s0, buffer, buffer[k + RequiredLength..], FrameFrom(buffer, k), s);
  }

  /** The bookkeeping of ProgressFrameContinue, for any buffer whose drain begins with
      `frame` and goes on as the drain of `tail`. */
  lemma ProgressShift(d0: Drained, done: seq<Frame>, s0: Snapshot, buffer: string, tail: string,
                      frame: Frame, s: Snapshot)
    requires Progress(d0, done, false, s0, buffer, s)
    requires Drain(buffer) == Drained([frame] + Drain(tail).frames, Drain(tail).rest,
                                      Drain(tail).disconnected)
    ensures Progress(d0, done + [frame], false, s0, tail,
                     Snapshot(s.published + [Decode(frame)], s.frames + [frame], s.disconnects,
                              true, s.pending))
  {
    assert done + ([frame] + Drain(tail).frames) == (done + [frame]) + Drain(tail).frames;
    RecordedFrame(done, s0, s, frame, false);
  }


  /** Without a whole frame ahead the loop breaks, and Progress holds of what is left: an
      empty buffer when there is no ':', the text from the ':' on otherwise. */
  lemma ProgressNoFrame(d0: Drained, done: seq<Frame>, s0: Snapshot, buffer: string, k: int,
                        s: Snapshot)
    requires Progress(d0, done, false, s0, buffer, s)
    requires |buffer| >= RequiredLength && k == IndexOf(buffer, StartSequence)
    requires !(k >= 0 && |buffer| >= k + RequiredLength)
    ensures k == -1 ==> Progress(d0, done, false, s0, [], s)
    ensures k != -1 ==> 0 <= k < |buffer| && Progress(d0, done, false, s0, buffer[k..], s)
  {
    if k == -1 {
      DrainNoMarker(buffer);
      assert Drain([]) == Drained([], [], false);
      assert done + [] == done;
    } else {
      DrainResync(buffer, k);
      assert Drain(buffer[k..]) == Drained([], buffer[k..], false);
      assert done + [] == done;
    }
  }

  /** One more frame handled, and possibly the disconnect it causes. */
  lemma RecordedFrame(done: seq<Frame>, s0: Snapshot, s: Snapshot, frame: Frame, stop: bool)
    requires Recorded(done, false, s0, s)
    ensures Recorded(done + [frame], stop, s0,
                     Snapshot(s.published + [Decode(frame)], s.frames + [frame],
                              s.disconnects + (if stop then 1 else 0), true, s.pending && !stop))
  {
    ReadingsSnoc(done, frame);
    assert s.frames + [frame] == s0.frames + (done + [frame]);
  }

  /** Frame shape: every frame handed on is a slice of the buffer, they occur in order and
      do not overlap. */
  lemma {:induction false} DrainFramesInOrder(buffer: string)
    ensures InOrder(buffer, Drain(buffer).frames)
    decreases |buffer|
  {
    if |buffer| >= RequiredLength {
      var k := IndexOf(buffer, StartSequence);
      if k >= 0 && |buffer| >= k + RequiredLength {
        var frame := buffer[k..k + RequiredLength];
        if IsErrorData(GetRequiredByte(frame), GetRequiredBytes(frame)) {
          DrainErrorFrame(buffer, k);
          DrainFramesInOrder(buffer[k + RequiredLength..]);
          InOrderCons(buffer, k, Drain(buffer[k + RequiredLength..]).frames);
        } else {
          DrainCountFrame(buffer, k);
          InOrderCons(buffer, k, []);
        }
      }
    }
  }

  /** A frame at k followed by frames in order in what comes after it. */
  lemma InOrderCons(buffer: string, k: nat, rest: seq<string>)
    requires k + RequiredLength <= |buffer|
    requires InOrder(buffer[k + RequiredLength..], rest)
    ensures InOrder(buffer, [buffer[k..k + RequiredLength]] + rest)
  {
    var frames := [buffer[k..k + RequiredLength]] + rest;
    assert frames[1..] == rest;
    assert FrameAt(buffer, k, frames[0]);
  }

  /** Every frame but the last has count 0, and the run disconnects exactly when the last
      frame's count is non-zero. */
  ghost predicate StopsOnCount(d: Drained) {
    && (forall i :: 0 <= i < |d.frames| - 1 ==> GetRequiredBytes(d.frames[i]) == 0)
    && (d.disconnected <==> d.frames != [] && GetRequiredBytes(d.frames[|d.frames| - 1]) != 0)
  }

  /** Scanning goes on after a count-0 frame and stops after any other. */
  lemma {:induction false} DrainStopsOnCount(buffer: string)
    ensures StopsOnCount(Drain(buffer))
    decreases |buffer|
  {
    if |buffer| >= RequiredLength {
      var k := IndexOf(buffer, StartSequence);
      if k >= 0 && |buffer| >= k + RequiredLength {
        var frame := FrameFrom(buffer, k);
        if IsErrorData(GetRequiredByte(frame), GetRequiredBytes(frame)) {
          DrainErrorFrame(buffer, k);
          DrainStopsOnCount(buffer[k + RequiredLength..]);
          StopsOnCountCons(frame, Drain(buffer[k + RequiredLength..]));
        } else {
          DrainCountFrame(buffer, k);
        }
      }
    }
  }

  /** A count-0 frame in front of a run keeps StopsOnCount. */
  lemma StopsOnCountCons(frame: Frame, t: Drained)
    requires StopsOnCount(t) && GetRequiredBytes(frame) == 0
    ensures StopsOnCount(Drained([frame] + t.frames, t.rest, t.disconnected))
  {
    var frames := [frame] + t.frames;
    assert forall i :: 0 < i < |frames| ==> frames[i] == t.frames[i - 1];
    forall i | 0 <= i < |frames| - 1
      ensures GetRequiredBytes(frames[i]) == 0
    {
      if i > 0 { assert frames[i] == t.frames[i - 1]; }
    }
    if t.frames != [] { assert frames[|frames| - 1] == t.frames[|t.frames| - 1]; }
  }

  /** Each frame consumes a full frame length of the buffer, so a run hands on at most
      |buffer| / 235 frames and the loop terminates. */
  lemma {:induction false} DrainFrameBudget(buffer: string)
    ensures |Drain(buffer).frames| * RequiredLength + |Drain(buffer).rest| <= |buffer|
    decreases |buffer|
  {
    if |buffer| >= RequiredLength {
      var k := IndexOf(buffer, StartSequence);
      if k >= 0 && |buffer| >= k + RequiredLength {
        var frame := buffer[k..k + RequiredLength];
        if IsErrorData(GetRequiredByte(frame), GetRequiredBytes(frame)) {
          DrainErrorFrame(buffer, k);
          DrainFrameBudget(buffer[k + RequiredLength..]);
        } else {
          DrainCountFrame(buffer, k);
        }
      }
    }
  }

  /** All chunks of one delivery, appended one after the other. */
  function Concat(chunks: seq<string>): string
    decreases |chunks|
  {
    if chunks == [] then [] else Concat(chunks[..|chunks| - 1]) + chunks[|chunks| - 1]
  }

  /** The first chunk comes first, followed by the rest in order. */
  lemma {:induction false} ConcatFront(chunks: seq<string>)
    requires chunks != []
    ensures Concat(chunks) == chunks[0] + Concat(chunks[1..])
    decreases |chunks|
  {
    var n := |chunks|;
    if n == 1 {
      assert chunks[1..] == [] && chunks[..0] == [];
    } else {
      var init, rest := chunks[..n - 1], chunks[1..];
      assert rest[..|rest| - 1] == init[1..];
      calc {
        Concat(chunks);
        Concat(init) + chunks[n - 1];
        { ConcatFront(init); }
        (init[0] + Concat(init[1..])) + chunks[n - 1];
        { assert init[0] == chunks[0]; }
        chunks[0] + (Concat(init[1..]) + chunks[n - 1]);
        chunks[0] + Concat(rest);
      }
    }
  }

  /** The service's state as far as the receive path and the cycle flags go. */
  class Service {
    /** accumulatedData */
    var accumulatedData: string
    /** dataProcessedThisSchedule */
    var dataProcessedThisSchedule: bool
    /** deviceAddress (None stands for null) */
    var deviceAddress: Option<string>
    /** initializeConnection started the fixed-delay scheduler */
    var schedulerStarted: bool
    /** a disconnectIfNotProcessed task is scheduled and its executor not shut down */
    var timeoutPending: bool
    /** calls of serialService.connect */
    var connectRequests: nat
    /** calls of serialService.disconnect */
    var disconnects: nat
    /** writes to the sink, in order; the sink's current value is the last one */
    var published: seq<Reading>
    /** every message handed to processValidMessage, in order */
    ghost var frames: seq<string>

    /** Buffer bound: between calls from outside, the buffer is shorter than a frame. The
        constructor establishes it and every method called from outside keeps it. */
    ghost predicate Valid()
      reads this
    {
      |accumulatedData| < RequiredLength
    }

    /** The new state is what one Drain of buffer0 produces from the given old values. */
    ghost predicate DrainedFrom(buffer0: string, published0: seq<Reading>, frames0: seq<string>,
                                disconnects0: nat, processed0: bool, pending0: bool)
      reads this
    {
      var d := Drain(buffer0);
      && accumulatedData == d.rest
      && published == published0 + Readings(d.frames)
      && frames == frames0 + d.frames
      && disconnects == disconnects0 + (if d.disconnected then 1 else 0)
      && dataProcessedThisSchedule == (processed0 || d.frames != [])
      && timeoutPending == (pending0 && !d.disconnected)
    }

    /** Field initialisers, then initializeConnection with the address source's value: the
        scheduler is started only for a non-null, non-empty address. */
    constructor (lastDeviceAddress: Option<string>)
      ensures Valid()
      ensures accumulatedData == [] && !dataProcessedThisSchedule && !timeoutPending
      ensures deviceAddress == lastDeviceAddress
      ensures schedulerStarted <==> lastDeviceAddress.Some? && lastDeviceAddress.value != []
      ensures connectRequests == 0 && disconnects == 0 && published == [] && frames == []
    {
      accumulatedData := [];
      dataProcessedThisSchedule := false;
      timeoutPending := false;
      connectRequests := 0;
      disconnects := 0;
      published := [];
      frames := [];
      deviceAddress := lastDeviceAddress;
      schedulerStarted := lastDeviceAddress.Some? && lastDeviceAddress.value != [];
    }

    /** disconnect: close the transport, cancel the pending timeout, clear the buffer. */
    method Disconnect()
      modifies this`disconnects, this`timeoutPending, this`accumulatedData
      ensures Valid()
      ensures disconnects == old(disconnects) + 1
      ensures !timeoutPending && accumulatedData == []
    {
      disconnects := disconnects + 1;
      timeoutPending := false;
      accumulatedData := [];
    }

    /** onSerialConnectError */
    method OnSerialConnectError()
      modifies this`disconnects, this`timeoutPending, this`accumulatedData
      ensures Valid()
      ensures disconnects == old(disconnects) + 1
      ensures !timeoutPending && accumulatedData == []
    {
      Disconnect();
    }

    /** onSerialIoError */
    method OnSerialIoError()
      modifies this`disconnects, this`timeoutPending, this`accumulatedData
      ensures Valid()
      ensures disconnects == old(disconnects) + 1
      ensures !timeoutPending && accumulatedData == []
    {
      Disconnect();
    }

    /** connect: a connect request is sent when the device address is usable; when looking
        up the device or creating the socket throws (`fails`, or a null address), the
        connect error handler disconnects instead. */
    method Connect(fails: bool)
      requires Valid()
      modifies this`connectRequests, this`disconnects, this`timeoutPending, this`accumulatedData
      ensures Valid()
      ensures deviceAddress.Some? && !fails ==>
        connectRequests == old(connectRequests) + 1 && disconnects == old(disconnects)
        && timeoutPending == old(timeoutPending) && accumulatedData == old(accumulatedData)
      ensures deviceAddress.None? || fails ==>
        connectRequests == old(connectRequests) && disconnects == old(disconnects) + 1
        && !timeoutPending && accumulatedData == []
    {
      if deviceAddress.None? || fails {
        OnSerialConnectError();
      } else {
        connectRequests := connectRequests + 1;
      }
    }

    /** scheduledConnectAndFetchData: one cycle start. The flag is reset, the address is
        re-read from the address source, a connection is requested and the timeout is
        armed. With a null address held, the comparison throws and the catch block only
        disconnects. */
    method ScheduledConnectAndFetchData(currentAddress: Option<string>, connectFails: bool)
      requires schedulerStarted
      requires Valid()
      modifies this`dataProcessedThisSchedule, this`deviceAddress, this`timeoutPending
      modifies this`connectRequests, this`disconnects, this`accumulatedData
      ensures Valid()
      ensures !dataProcessedThisSchedule
      ensures old(deviceAddress).None? ==>
        deviceAddress.None? && connectRequests == old(connectRequests)
        && disconnects == old(disconnects) + 1 && accumulatedData == [] && !timeoutPending
      ensures old(deviceAddress).Some? ==>
        deviceAddress == currentAddress && timeoutPending
        && var sent := currentAddress.Some? && !connectFails;
        && connectRequests == old(connectRequests) + (if sent then 1 else 0)
        && disconnects == old(disconnects) + (if sent then 0 else 1)
        && accumulatedData == (if sent then old(accumulatedData) else [])
    {
      dataProcessedThisSchedule := false;
      if deviceAddress.None? {
        Disconnect();
        return;
      }
      if deviceAddress != currentAddress {
        deviceAddress := currentAddress;
      }
      Connect(connectFails);
      // scheduleDisconnectTimeout
      timeoutPending := true;
    }

    /** disconnectIfNotProcessed: disconnect only when no frame was processed this cycle. */
    method DisconnectIfNotProcessed()
      requires Valid()
      modifies this`disconnects, this`timeoutPending, this`accumulatedData
      ensures Valid()
      ensures dataProcessedThisSchedule ==>
        disconnects == old(disconnects) && timeoutPending == old(timeoutPending)
        && accumulatedData == old(accumulatedData)
      ensures !dataProcessedThisSchedule ==>
        disconnects == old(disconnects) + 1 && !timeoutPending && accumulatedData == []
    {
      if !dataProcessedThisSchedule {
        Disconnect();
      }
    }

    /** The timeout elapses: the pending disconnectIfNotProcessed task runs, unless a
        disconnect shut its executor down before. */
    method TimeoutElapses()
      requires Valid()
      modifies this`disconnects, this`timeoutPending, this`accumulatedData
      ensures Valid()
      ensures !timeoutPending
      ensures old(timeoutPending) && !dataProcessedThisSchedule ==>
        disconnects == old(disconnects) + 1 && accumulatedData == []
      ensures !(old(timeoutPending) && !dataProcessedThisSchedule) ==>
        disconnects == old(disconnects) && accumulatedData == old(accumulatedData)
    {
      if timeoutPending {
        timeoutPending := false;
        DisconnectIfNotProcessed();
      }
    }

    /** processValidMessage: both fields are published for every frame; only a frame with
        a non-zero count disconnects. */
    method ProcessValidMessage(message: string)
      requires |message| >= 129
      modifies this`published, this`frames, this`disconnects, this`timeoutPending, this`accumulatedData
      ensures published == old(published) + [Decode(message)]
      ensures frames == old(frames) + [message]
      ensures IsErrorData(GetRequiredByte(message), GetRequiredBytes(message)) ==>
        disconnects == old(disconnects) && timeoutPending == old(timeoutPending)
        && accumulatedData == old(accumulatedData)
      ensures !IsErrorData(GetRequiredByte(message), GetRequiredBytes(message)) ==>
        disconnects == old(disconnects) + 1 && !timeoutPending && accumulatedData == []
    {
      var requiredByte := GetRequiredByte(message);
      var requiredBytes := GetRequiredBytes(message);
      published := published + [Reading(requiredByte as int, requiredBytes)];
      frames := frames + [message];
      if !IsErrorData(requiredByte, requiredBytes) {
        Disconnect();
      }
    }

    /** The branch of processAccumulatedData's loop that finds a whole frame at startIndex:
        the frame goes to processValidMessage, the flag is set, and the buffer is deleted
        up to the frame's end (StringBuilder.delete clamps that end to the current length,
        which is 0 after a disconnect). */
    method TakeFrame(startIndex: nat)
      requires startIndex + RequiredLength <= |accumulatedData|
      modifies this`accumulatedData, this`published, this`frames, this`disconnects
      modifies this`dataProcessedThisSchedule, this`timeoutPending
      ensures var frame := old(accumulatedData)[startIndex..startIndex + RequiredLength];
        && published == old(published) + [Decode(frame)]
        && frames == old(frames) + [frame]
        && dataProcessedThisSchedule
        && if IsErrorData(GetRequiredByte(frame), GetRequiredBytes(frame)) then
             && accumulatedData == old(accumulatedData)[startIndex + RequiredLength..]
             && disconnects == old(disconnects) && timeoutPending == old(timeoutPending)
           else
             && accumulatedData == [] && disconnects == old(disconnects) + 1 && !timeoutPending
    {
      var validMessage := accumulatedData[startIndex..startIndex + RequiredLength];
      ProcessValidMessage(validMessage);
      dataProcessedThisSchedule := true;
      var end := if startIndex + RequiredLength <= |accumulatedData| then startIndex + RequiredLength
                 else |accumulatedData|;
      accumulatedData := accumulatedData[end..];
    }

    /** The state part way through processAccumulatedData, as a Progress of the fields. */
    ghost predicate Draining(d0: Drained, done: seq<Frame>, stopped: bool, s0: Snapshot)
      reads this
    {
      Progress(d0, done, stopped, s0, accumulatedData, Snap())
    }

    ghost function Snap(): Snapshot
      reads this
    {
      Snapshot(published, frames, disconnects, dataProcessedThisSchedule, timeoutPending)
    }

    /** The frame branch of the loop, proved against Drain: the frame is the next one Drain
        yields, and the loop goes on with a shorter buffer unless the frame made it
        disconnect. */
    method TakeNextFrame(ghost d0: Drained, ghost done: seq<Frame>, ghost s0: Snapshot,
                         startIndex: nat)
      returns (ghost stopped: bool)
      requires Draining(d0, done, false, s0)
      requires |accumulatedData| >= RequiredLength
      requires startIndex == IndexOf(accumulatedData, StartSequence)
      requires |accumulatedData| >= startIndex + RequiredLength
      modifies this`accumulatedData, this`published, this`frames, this`disconnects
      modifies this`dataProcessedThisSchedule, this`timeoutPending
      ensures Draining(d0, done + [old(accumulatedData)[startIndex..startIndex + RequiredLength]],
                       stopped, s0)
      ensures |accumulatedData| < old(|accumulatedData|)
    {
      ghost var frame := accumulatedData[startIndex..startIndex + RequiredLength];
      stopped := !IsErrorData(GetRequiredByte(frame), GetRequiredBytes(frame));
      if stopped {
        ProgressFrameStop(d0, done, s0, accumulatedData, startIndex, Snap());
      } else {
        ProgressFrameContinue(d0, done, s0, accumulatedData, startIndex, Snap());
      }
      TakeFrame(startIndex);
    }

    /** One turn of the loop in processAccumulatedData. `goOn` is false where the loop
        breaks: no ':' in the buffer, or a ':' too close to the end for a whole frame. */
    method ProcessOnce(ghost d0: Drained, ghost done: seq<Frame>, ghost s0: Snapshot)
      returns (goOn: bool, ghost done': seq<Frame>, ghost stopped: bool)
      requires |accumulatedData| >= RequiredLength
      requires Draining(d0, done, false, s0)
      modifies this`accumulatedData, this`published, this`frames, this`disconnects
      modifies this`dataProcessedThisSchedule, this`timeoutPending
      ensures Draining(d0, done', stopped, s0)
      ensures goOn ==> |accumulatedData| < old(|accumulatedData|)
      ensures !goOn ==> |accumulatedData| < RequiredLength
    {
      var startIndex := IndexOf(accumulatedData, StartSequence);
      if startIndex >= 0 && |accumulatedData| >= startIndex + RequiredLength {
        done' := done + [FrameFrom(accumulatedData, startIndex)];
        stopped := TakeNextFrame(d0, done, s0, startIndex);
        goOn := true;
      } else if startIndex == -1 {
        ProgressNoFrame(d0, done, s0, accumulatedData, startIndex, Snap());
        accumulatedData := [];
        goOn, done', stopped := false, done, false;
      } else {
        ProgressNoFrame(d0, done, s0, accumulatedData, startIndex, Snap());
        accumulatedData := accumulatedData[startIndex..];
        goOn, done', stopped := false, done, false;
      }
    }

    /** processAccumulatedData, proved against Drain. */
    method ProcessAccumulatedData()
      modifies this`accumulatedData, this`published, this`frames, this`disconnects
      modifies this`dataProcessedThisSchedule, this`timeoutPending
      ensures Valid()
      ensures DrainedFrom(old(accumulatedData), old(published), old(frames), old(disconnects),
                          old(dataProcessedThisSchedule), old(timeoutPending))
    {
      ghost var d0 := Drain(accumulatedData);
      ghost var done: seq<Frame> := [];
      ghost var stopped := false;
      while |accumulatedData| >= RequiredLength
        invariant Draining(d0, done, stopped, old(Snap()))
        decreases |accumulatedData|
      {
        var goOn;
        goOn, done, stopped := ProcessOnce(d0, done, old(Snap()));
        if !goOn {
          break;
        }
      }
      assert Drain(accumulatedData) == Drained([], accumulatedData, false);
      assert done + [] == done;
    }

    /** receive: every chunk is appended, in order, and the buffer is processed once. */
    method Receive(datas: seq<string>)
      modifies this`accumulatedData, this`published, this`frames, this`disconnects
      modifies this`dataProcessedThisSchedule, this`timeoutPending
      ensures Valid()
      ensures DrainedFrom(old(accumulatedData) + Concat(datas), old(published), old(frames),
                          old(disconnects), old(dataProcessedThisSchedule), old(timeoutPending))
    {
      for n := 0 to |datas|
        invariant accumulatedData == old(accumulatedData) + Concat(datas[..n])
        invariant published == old(published) && frames == old(frames) && disconnects == old(disconnects)
        invariant dataProcessedThisSchedule == old(dataProcessedThisSchedule)
        invariant timeoutPending == old(timeoutPending)
      {
        assert datas[..n + 1][..n] == datas[..n];
        accumulatedData := accumulatedData + datas[n];
      }
      assert datas[..|datas|] == datas;
      ProcessAccumulatedData();
    }

    /** onSerialRead with a single chunk. */
    method OnSerialRead(data: string)
      modifies this`accumulatedData, this`published, this`frames, this`disconnects
      modifies this`dataProcessedThisSchedule, this`timeoutPending
      ensures Valid()
      ensures DrainedFrom(old(accumulatedData) + data, old(published), old(frames),
                          old(disconnects), old(dataProcessedThisSchedule), old(timeoutPending))
    {
      assert Concat([data]) == data by { assert [data][..0] == []; }
      Receive([data]);
    }
  }
}
