/** The hex receive path of BluetoothTimedConnection.

    Every received chunk of bytes is written as hex text (two lower-case digits per byte,
    high nibble first), upper-cased and appended to a buffer. The buffer is kept only while
    it begins with the marker "01410005". Once it holds at least 234 characters, the count
    (characters 60..64) and the status (characters 126..128, narrowed to a signed byte) are
    read from it and written to the sink, the buffer is cleared and the serial service is
    told to disconnect. Any other buffer is cleared. */
module TimedConnection {
  import opened Shared
  import opened HexText

  /** startSequence */
  const StartSequence: string := "01410005"
  /** requiredLength: characters of hex text in one frame */
  const RequiredLength: nat := 234
  /** The four bytes whose hex text is the marker. */
  const MarkerBytes: seq<JByte> := [1, 0x41, 0, 5]

  predicate StartsWith(s: string, p: string) {
    |p| <= |s| && s[..|p|] == p
  }

  /** t occurs in s at position j. */
  predicate OccursAt(s: string, t: string, j: nat) {
    j + |t| <= |s| && s[j..j + |t|] == t
  }

  /** `s.indexOf(t)`: the first position at which t occurs in s, or -1 when it does not
      (IndexOfTextFirst). */
  function IndexOfText(s: string, t: string): (k: int)
    ensures -1 <= k && (k >= 0 ==> k + |t| <= |s|)
    decreases |s|
  {
    if |s| < |t| then -1
    else if s[..|t|] == t then 0
    else
      var k := IndexOfText(s[1..], t);
      if k == -1 then -1 else k + 1
  }

  /** IndexOfText finds the first occurrence, and -1 means there is none. */
  lemma {:induction false} IndexOfTextFirst(s: string, t: string)
    ensures var k := IndexOfText(s, t);
      && (k >= 0 ==> OccursAt(s, t, k) && forall j: nat :: j < k ==> !OccursAt(s, t, j))
      && (k == -1 ==> forall j: nat :: !OccursAt(s, t, j))
    decreases |s|
  {
    if |s| < |t| {
    } else if s[..|t|] == t {
      assert s[0..|t|] == s[..|t|];
    } else {
      var k := IndexOfText(s[1..], t);
      assert IndexOfText(s, t) == if k == -1 then -1 else k + 1;
      IndexOfTextFirst(s[1..], t);
      ShiftedOccurrence(s, t);
      assert !OccursAt(s, t, 0) by { assert s[0..|t|] == s[..|t|]; }
      if k == -1 {
        forall j: nat ensures !OccursAt(s, t, j) {
          if j > 0 {
            assert !OccursAt(s[1..], t, j - 1);
          }
        }
      } else {
        assert OccursAt(s[1..], t, k);
        forall j: nat | j < k + 1 ensures !OccursAt(s, t, j) {
          if j > 0 {
            assert !OccursAt(s[1..], t, j - 1);
          }
        }
      }
    }
  }

  /** An occurrence in s[1..] is one in s, one position further on. */
  lemma ShiftedOccurrence(s: string, t: string)
    requires s != []
    ensures forall j: nat :: OccursAt(s[1..], t, j) <==> OccursAt(s, t, j + 1)
  {
    forall j: nat ensures OccursAt(s[1..], t, j) <==> OccursAt(s, t, j + 1) {
      if j + 1 + |t| <= |s| {
        assert s[1..][j..j + |t|] == s[j + 1..j + 1 + |t|];
      }
    }
  }

  /** `indexOf(startSequence) == 0` is exactly "begins with the marker". */
  lemma IndexOfTextZero(s: string, t: string)
    ensures IndexOfText(s, t) == 0 <==> StartsWith(s, t)
  {
    if IndexOfText(s, t) == 0 {
      assert s[0..|t|] == s[..|t|];
    }
  }

  /** The buffer between chunks: empty, or an unfinished frame that begins with the marker. */
  predicate Holding(s: string) {
    s == [] || (StartsWith(s, StartSequence) && |s| < RequiredLength)
  }

  /** The text a chunk adds to the buffer: bytesToHex, then toUpperCase. */
  function ChunkText(chunk: seq<JByte>): (t: string)
    ensures |t| == 2 * |chunk| && AllUpperHex(t)
  {
    UpperHexChunk(chunk);
    ToUpper(BytesToHex(chunk))
  }

  /** A frame handed to processAccumulatedData: the whole buffer and the two decoded fields. */
  datatype Publication = Publication(text: string, reading: Reading)

  /** What the body of receive's loop does with one chunk. */
  datatype Stepped = Stepped(buffer: string, publication: Option<Publication>)

  /** The fields receive decodes from a buffer that begins with the marker; a field whose
      characters are not there yet stays at its default 0. */
  function Fields(b: string): (r: Reading)
    requires AllUpperHex(b)
    ensures -128 <= r.status < 128 && 0 <= r.count < 65536
    ensures |b| < 128 ==> r.status == 0
    ensures |b| < 64 ==> r.count == 0
  {
    assert Pow16(4) == 65536;
    var status: JByte := if |b| >= 128 then SignedByte(HexValue(b[126..128])) else 0;
    var count := if |b| >= 64 then HexValue(b[60..64]) else 0;
    Reading(status as int, count)
  }

  /** Nothing is lost in reading the fields of a buffer that holds them: written back as
      hex, the count and the status are characters 60..64 and 126..128. */
  lemma FieldsExact(b: string)
    requires AllUpperHex(b) && |b| >= 128
    ensures EncodeHex(Fields(b).count, 4) == b[60..64]
    ensures EncodeHex(Unsigned(Fields(b).status as JByte), 2) == b[126..128]
  {
    var count, status := b[60..64], b[126..128];
    EncodeHexValue(count);
    ToUpperOfUpper(count);
    assert Pow16(2) == 256;
    ByteCastsInverse(0, HexValue(status));
    EncodeHexValue(status);
    ToUpperOfUpper(status);
  }

  /** One turn of receive's loop. The buffer is an invariant of the class, so it holds
      upper-case hex digits only and Integer.parseInt cannot fail on it. */
  function Step(buffer: string, chunk: seq<JByte>): (r: Stepped)
    requires AllUpperHex(buffer)
    ensures AllUpperHex(r.buffer)
  {
    var b := buffer + ChunkText(chunk);
    if StartsWith(b, StartSequence) then
      if |b| >= RequiredLength then Stepped([], Some(Publication(b, Fields(b))))
      else Stepped(b, None)
    else Stepped([], None)
  }

  /** One turn keeps the buffer shape, publishes exactly when the grown buffer begins with
      the marker and holds a whole frame, and otherwise keeps the grown buffer only while it
      begins with the marker: there is no search for a later marker. */
  lemma StepShape(buffer: string, chunk: seq<JByte>)
    requires AllUpperHex(buffer)
    ensures var r := Step(buffer, chunk);
      var b := buffer + ChunkText(chunk);
      && Holding(r.buffer)
      && (r.publication.Some? <==> StartsWith(b, StartSequence) && |b| >= RequiredLength)
      && (r.publication.Some? ==> r.publication.value.text == b && r.buffer == [])
      && (r.publication.None? ==> r.buffer == if StartsWith(b, StartSequence) then b else [])
  {
  }

  /** No default leaks: a published reading has both fields read from the buffer, the count
      as four hex digits and the status as two narrowed to a signed byte. */
  lemma StepReading(buffer: string, chunk: seq<JByte>)
    requires AllUpperHex(buffer)
    ensures var r := Step(buffer, chunk);
      var b := buffer + ChunkText(chunk);
      r.publication.Some? ==>
        && AllHex(b[60..64]) && AllHex(b[126..128])
        && r.publication.value.reading ==
             Reading(SignedByte(HexValue(b[126..128])) as int, HexValue(b[60..64]))
        && 0 <= r.publication.value.reading.count < 65536
  {
    assert Pow16(4) == 65536;
  }

  /** What receive does with a run of chunks, in order: the buffer it leaves, and the
      frames and readings it hands to processAccumulatedData. */
  datatype Outcome = Outcome(buffer: string, texts: seq<string>, readings: seq<Reading>)

  /** The outcome so far, followed by one more turn of the loop. */
  function Record(o: Outcome, r: Stepped): Outcome {
    match r.publication
    case None => Outcome(r.buffer, o.texts, o.readings)
    case Some(p) => Outcome(r.buffer, o.texts + [p.text], o.readings + [p.reading])
  }

  function Feed(buffer: string, chunks: seq<seq<JByte>>): (o: Outcome)
    requires AllUpperHex(buffer)
    ensures AllUpperHex(o.buffer)
    decreases |chunks|
  {
    if chunks == [] then Outcome(buffer, [], [])
    else
      var o := Feed(buffer, chunks[..|chunks| - 1]);
      Record(o, Step(o.buffer, chunks[|chunks| - 1]))
  }

  /** Every text begins with the marker and holds a whole frame. */
  predicate FrameTexts(texts: seq<string>) {
    forall i :: 0 <= i < |texts| ==>
      StartsWith(texts[i], StartSequence) && |texts[i]| >= RequiredLength
  }

  /** After any run of chunks the buffer has its shape, one reading is written per frame
      text, and every frame text begins with the marker and holds a whole frame. */
  lemma {:induction false} FeedShape(buffer: string, chunks: seq<seq<JByte>>)
    requires AllUpperHex(buffer)
    ensures var o := Feed(buffer, chunks);
      && (chunks != [] || Holding(buffer) ==> Holding(o.buffer))
      && |o.texts| == |o.readings|
      && FrameTexts(o.texts)
    decreases |chunks|
  {
    if chunks != [] {
      var n := |chunks|;
      var o := Feed(buffer, chunks[..n - 1]);
      var r := Step(o.buffer, chunks[n - 1]);
      assert Feed(buffer, chunks) == Record(o, r);
      FeedShape(buffer, chunks[..n - 1]);
      StepFrameShape(o.buffer, chunks[n - 1]);
      RecordShape(o, r);
    }
  }

  /** The part of StepShape that FeedShape needs. */
  lemma StepFrameShape(buffer: string, chunk: seq<JByte>)
    requires AllUpperHex(buffer)
    ensures var r := Step(buffer, chunk);
      && Holding(r.buffer)
      && (r.publication.Some? ==> FrameTexts([r.publication.value.text]))
  {
    StepShape(buffer, chunk);
  }

  /** Recording a step keeps one reading per text, and every text a whole frame. */
  lemma RecordShape(o: Outcome, r: Stepped)
    requires |o.texts| == |o.readings| && FrameTexts(o.texts)
    requires r.publication.Some? ==> FrameTexts([r.publication.value.text])
    ensures |Record(o, r).texts| == |Record(o, r).readings| && FrameTexts(Record(o, r).texts)
  {
    if r.publication.Some? {
      var texts := o.texts + [r.publication.value.text];
      assert forall i :: 0 <= i < |o.texts| ==> texts[i] == o.texts[i];
      assert texts[|o.texts|] == r.publication.value.text;
    }
  }

  /** Reading i is the pair of fields decoded from frame text i. */
  predicate Paired(texts: seq<string>, readings: seq<Reading>) {
    && |texts| == |readings|
    && forall i :: 0 <= i < |texts| ==> AllUpperHex(texts[i]) && readings[i] == Fields(texts[i])
  }

  /** Over any run of chunks, what receive writes to the sink for each frame is the pair of
      fields of that frame's text, in the same order. */
  lemma {:induction false} FeedReadings(buffer: string, chunks: seq<seq<JByte>>)
    requires AllUpperHex(buffer)
    ensures Paired(Feed(buffer, chunks).texts, Feed(buffer, chunks).readings)
    decreases |chunks|
  {
    if chunks != [] {
      var n := |chunks|;
      var o := Feed(buffer, chunks[..n - 1]);
      var r := Step(o.buffer, chunks[n - 1]);
      assert Feed(buffer, chunks) == Record(o, r);
      FeedReadings(buffer, chunks[..n - 1]);
      StepPaired(o.buffer, chunks[n - 1]);
      RecordPaired(o, r);
    }
  }

  /** A published frame carries the fields of its own text. */
  lemma StepPaired(buffer: string, chunk: seq<JByte>)
    requires AllUpperHex(buffer)
    ensures var r := Step(buffer, chunk);
      r.publication.Some? ==> Paired([r.publication.value.text], [r.publication.value.reading])
  {
    var b := buffer + ChunkText(chunk);
    assert AllUpperHex(b);
  }

  /** Recording a step keeps texts and readings paired. */
  lemma RecordPaired(o: Outcome, r: Stepped)
    requires Paired(o.texts, o.readings)
    requires r.publication.Some? ==> Paired([r.publication.value.text], [r.publication.value.reading])
    ensures Paired(Record(o, r).texts, Record(o, r).readings)
  {
    if r.publication.Some? {
      var texts := o.texts + [r.publication.value.text];
      var readings := o.readings + [r.publication.value.reading];
      assert forall i :: 0 <= i < |o.texts| ==> texts[i] == o.texts[i] && readings[i] == o.readings[i];
      assert texts[|o.texts|] == r.publication.value.text;
      assert readings[|o.texts|] == r.publication.value.reading;
    }
  }

  /** The outcomes of two runs of chunks, one after the other. */
  function Then(first: Outcome, second: Outcome): Outcome {
    Outcome(second.buffer, first.texts + second.texts, first.readings + second.readings)
  }

  /** Chunk order: feeding a + b is feeding a and then feeding b to the buffer a left. */
  lemma {:induction false} FeedAppend(buffer: string, a: seq<seq<JByte>>, b: seq<seq<JByte>>)
    requires AllUpperHex(buffer)
    ensures Feed(buffer, a + b) == Then(Feed(buffer, a), Feed(Feed(buffer, a).buffer, b))
    decreases |b|
  {
    if b == [] {
      assert a + b == a;
    } else {
      var n := |b|;
      assert (a + b)[..|a + b| - 1] == a + b[..n - 1];
      assert (a + b)[|a + b| - 1] == b[n - 1];
      FeedAppend(buffer, a, b[..n - 1]);
      var o1 := Feed(buffer, a);
      var o2 := Feed(o1.buffer, b[..n - 1]);
      var r := Step(o2.buffer, b[n - 1]);
      assert Feed(buffer, a + b) == Record(Then(o1, o2), r);
      assert Feed(o1.buffer, b) == Record(o2, r);
      RecordThen(o1, o2, r);
    }
  }

  lemma RecordThen(o1: Outcome, o2: Outcome, r: Stepped)
    ensures Record(Then(o1, o2), r) == Then(o1, Record(o2, r))
  {
    match r.publication {
      case None =>
      case Some(p) =>
        assert (o1.texts + o2.texts) + [p.text] == o1.texts + (o2.texts + [p.text]);
        assert (o1.readings + o2.readings) + [p.reading] == o1.readings + (o2.readings + [p.reading]);
    }
  }

  /** One more turn of the loop is the outcome so far followed by that turn on its own. */
  lemma RecordSplit(o: Outcome, r: Stepped)
    ensures Record(o, r) == Then(o, Record(Outcome(o.buffer, [], []), r))
  {
    match r.publication {
      case None =>
        assert o.texts + [] == o.texts && o.readings + [] == o.readings;
      case Some(p) =>
        assert [] + [p.text] == [p.text] && [] + [p.reading] == [p.reading];
    }
  }

  /** Feeding two chunks is two turns of the loop. */
  lemma FeedTwo(buffer: string, c1: seq<JByte>, c2: seq<JByte>)
    requires AllUpperHex(buffer)
    ensures var r1 := Step(buffer, c1);
      Feed(buffer, [c1, c2]) == Record(Record(Outcome(buffer, [], []), r1), Step(r1.buffer, c2))
  {
    var o1 := Feed(buffer, [c1]);
    assert o1 == Record(Feed(buffer, []), Step(buffer, c1)) by {
      assert [c1][..0] == [];
    }
    assert Feed(buffer, []) == Outcome(buffer, [], []);
    assert Feed(buffer, [c1, c2]) == Record(o1, Step(o1.buffer, c2)) by {
      assert [c1, c2][..1] == [c1];
    }
  }

  /** The hex text of the marker bytes is the marker. */
  lemma MarkerText()
    ensures ChunkText(MarkerBytes) == StartSequence
  {
    MarkerHex();
    UpperMarker();
  }

  lemma MarkerHex()
    ensures BytesToHex(MarkerBytes) == StartSequence
  {
    MarkerByteTexts();
    FourBytesToHex(MarkerBytes);
  }

  /** bytesToHex of four bytes is their four texts in order. */
  lemma FourBytesToHex(bytes: seq<JByte>)
    requires |bytes| == 4
    ensures BytesToHex(bytes) ==
      ByteToHex(bytes[0]) + ByteToHex(bytes[1]) + ByteToHex(bytes[2]) + ByteToHex(bytes[3])
  {
    var three, two, one := bytes[..3], bytes[..2], bytes[..1];
    assert BytesToHex(bytes) == BytesToHex(three) + ByteToHex(bytes[3]) by {
      BytesToHexLast(bytes);
    }
    assert BytesToHex(three) == BytesToHex(two) + ByteToHex(bytes[2]) by {
      BytesToHexLast(three);
      assert three[..2] == two && three[2] == bytes[2];
    }
    assert BytesToHex(two) == BytesToHex(one) + ByteToHex(bytes[1]) by {
      BytesToHexLast(two);
      assert two[..1] == one && two[1] == bytes[1];
    }
    assert BytesToHex(one) == ByteToHex(bytes[0]) by {
      BytesToHexLast(one);
      assert one[..0] == [] && one[0] == bytes[0];
    }
  }

  /** One step of bytesToHex, at the last byte. */
  lemma BytesToHexLast(bytes: seq<JByte>)
    requires bytes != []
    ensures BytesToHex(bytes) == BytesToHex(bytes[..|bytes| - 1]) + ByteToHex(bytes[|bytes| - 1])
  {
  }

  lemma MarkerByteTexts()
    ensures ByteToHex(1) == "01" && ByteToHex(0x41) == "41"
    ensures ByteToHex(0) == "00" && ByteToHex(5) == "05"
  {
    assert ToHexString(1) == "1" && ToHexString(0x41) == "41";
    assert ToHexString(0) == "0" && ToHexString(5) == "5";
  }

  lemma UpperMarker()
    ensures ToUpper(StartSequence) == StartSequence
  {
    assert UpperChar('0') == '0' && UpperChar('1') == '1';
    assert UpperChar('4') == '4' && UpperChar('5') == '5';
  }

  /** Chunk texts of consecutive byte runs are consecutive texts. */
  lemma ChunkTextSplit(bytes: seq<JByte>, i: nat)
    requires i <= |bytes|
    ensures ChunkText(bytes[..i]) + ChunkText(bytes[i..]) == ChunkText(bytes)
  {
    assert bytes[..i] + bytes[i..] == bytes;
    BytesToHexAppend(bytes[..i], bytes[i..]);
    ToUpperAppend(BytesToHex(bytes[..i]), BytesToHex(bytes[i..]));
  }

  /** Byte j of a chunk is written, upper-cased, at characters 2j and 2j+1 of its text. */
  lemma ChunkTextAt(bytes: seq<JByte>, j: nat)
    requires j < |bytes|
    ensures ChunkText(bytes)[2 * j..2 * j + 2] == ToUpper(ByteToHex(bytes[j]))
  {
    BytesToHexAt(bytes, j);
    ToUpperSlice(BytesToHex(bytes), 2 * j, 2 * j + 2);
  }

  /** The two fields of a frame at byte level: the count is bytes 30 and 31 read big-endian
      and unsigned, and the status is byte 63. */
  lemma FrameFields(fb: seq<JByte>)
    requires |fb| >= RequiredLength / 2 && fb[..4] == MarkerBytes
    ensures var t := ChunkText(fb);
      && StartsWith(t, StartSequence) && |t| >= RequiredLength
      && Fields(t) == Reading(fb[63] as int, Unsigned(fb[30]) * 256 + Unsigned(fb[31]))
  {
    FrameMarker(fb);
    FrameCount(fb);
    FrameStatus(fb);
  }

  lemma FrameMarker(fb: seq<JByte>)
    requires |fb| >= 4 && fb[..4] == MarkerBytes
    ensures StartsWith(ChunkText(fb), StartSequence)
  {
    ChunkTextSplit(fb, 4);
    MarkerText();
    assert ChunkText(fb)[..8] == ChunkText(fb[..4]);
  }

  lemma FrameCount(fb: seq<JByte>)
    requires |fb| >= 32
    ensures var t := ChunkText(fb);
      AllHex(t[60..64]) && HexValue(t[60..64]) == Unsigned(fb[30]) * 256 + Unsigned(fb[31])
  {
    var t := ChunkText(fb);
    var hi, lo := ToUpper(ByteToHex(fb[30])), ToUpper(ByteToHex(fb[31]));
    assert t[60..64] == hi + lo by {
      ChunkTextAt(fb, 30);
      ChunkTextAt(fb, 31);
      SliceJoin(t, 60, 62, 64);
    }
    assert AllHex(hi) && HexValue(hi) == Unsigned(fb[30]) by {
      HexValueToUpper(ByteToHex(fb[30]));
    }
    assert AllHex(lo) && HexValue(lo) == Unsigned(fb[31]) by {
      HexValueToUpper(ByteToHex(fb[31]));
    }
    HexValueConcat(hi, lo);
    assert Pow16(2) == 256;
  }

  lemma SliceJoin(s: string, i: nat, j: nat, k: nat)
    requires i <= j <= k <= |s|
    ensures s[i..k] == s[i..j] + s[j..k]
  {
  }

  lemma FrameStatus(fb: seq<JByte>)
    requires |fb| >= 64
    ensures var t := ChunkText(fb);
      AllHex(t[126..128]) && SignedByte(HexValue(t[126..128])) == fb[63]
  {
    ChunkTextAt(fb, 63);
    HexValueToUpper(ByteToHex(fb[63]));
    ByteCastsInverse(fb[63], 0);
  }

  /** A chunk whose first byte is not 0x01 does not begin with the marker. */
  lemma NotMarkerStart(bytes: seq<JByte>)
    requires |bytes| >= 1 && bytes[0] != 1
    ensures !StartsWith(ChunkText(bytes), StartSequence)
  {
    var t := ChunkText(bytes);
    var u := Unsigned(bytes[0]);
    assert u != 1 by { ByteCastsInverse(bytes[0], 0); }
    assert u / 16 != 0 || u % 16 != 1;
    FirstByteDigits(bytes);
    assert t[0] != '0' || t[1] != '1';
  }

  /** The first two characters of a chunk's text are the digits of its first byte. */
  lemma FirstByteDigits(bytes: seq<JByte>)
    requires |bytes| >= 1
    ensures var t := ChunkText(bytes);
      && IsHexDigit(t[0]) && DigitValue(t[0]) == Unsigned(bytes[0]) / 16
      && IsHexDigit(t[1]) && DigitValue(t[1]) == Unsigned(bytes[0]) % 16
  {
    var t := ChunkText(bytes);
    var h := ByteToHex(bytes[0]);
    ChunkTextAt(bytes, 0);
    assert t[0] == ToUpper(h)[0] && t[1] == ToUpper(h)[1];
    UpperDigitOfValue(h[0]);
    UpperDigitOfValue(h[1]);
  }

  /** As written, a frame that arrives as a chunk of 1 to 3 bytes followed by the rest is
      lost: the first text is shorter than the marker, so it is cleared, and the rest does
      not begin with the marker. */
  lemma SplitMarkerLost(fb: seq<JByte>, i: nat)
    requires |fb| == RequiredLength / 2 && fb[..4] == MarkerBytes && 1 <= i < 4
    ensures Feed([], [fb[..i], fb[i..]]) == Outcome([], [], [])
  {
    FeedTwo([], fb[..i], fb[i..]);
    StepShape([], fb[..i]);
    assert [] + ChunkText(fb[..i]) == ChunkText(fb[..i]);
    assert fb[i..][0] == fb[i] && fb[i] == MarkerBytes[i];
    NotMarkerStart(fb[i..]);
    StepShape([], fb[i..]);
    assert [] + ChunkText(fb[i..]) == ChunkText(fb[i..]);
  }

  /** The reading a frame's bytes carry: status byte 63, count bytes 30 and 31. */
  function FrameReading(fb: seq<JByte>): Reading
    requires |fb| >= 64
  {
    Reading(fb[63] as int, Unsigned(fb[30]) * 256 + Unsigned(fb[31]))
  }

  /** A chunk that completes a frame's text publishes that frame and clears the buffer. */
  lemma StepPublishesFrame(buffer: string, chunk: seq<JByte>, fb: seq<JByte>)
    requires AllUpperHex(buffer)
    requires |fb| == RequiredLength / 2 && fb[..4] == MarkerBytes
    requires buffer + ChunkText(chunk) == ChunkText(fb)
    ensures Step(buffer, chunk) == Stepped([], Some(Publication(ChunkText(fb), FrameReading(fb))))
    ensures StepKeepingPrefix(buffer, chunk) == Step(buffer, chunk)
  {
    FrameFields(fb);
  }

  /** An empty chunk on an empty buffer changes nothing. */
  lemma StepEmpty()
    ensures Step([], []) == Stepped([], None)
  {
    assert ChunkText([]) == [];
    assert !StartsWith([], StartSequence);
  }

  /** As written, every other split of a frame into two chunks delivers it once, with the
      fields read from its bytes. */
  lemma SplitFrameDelivered(fb: seq<JByte>, i: nat)
    requires |fb| == RequiredLength / 2 && fb[..4] == MarkerBytes
    requires i == 0 || 4 <= i <= |fb|
    ensures Feed([], [fb[..i], fb[i..]]) == Outcome([], [ChunkText(fb)], [FrameReading(fb)])
  {
    if i == |fb| {
      DeliveredInFirstChunk(fb);
    } else if i == 0 {
      DeliveredInSecondChunk(fb);
    } else {
      DeliveredAcrossChunks(fb, i);
    }
  }

  lemma DeliveredInFirstChunk(fb: seq<JByte>)
    requires |fb| == RequiredLength / 2 && fb[..4] == MarkerBytes
    ensures Feed([], [fb[..|fb|], fb[|fb|..]]) == Outcome([], [ChunkText(fb)], [FrameReading(fb)])
  {
    assert fb[..|fb|] == fb && fb[|fb|..] == [];
    FeedTwo([], fb, []);
    StepPublishesFrame([], fb, fb);
    StepEmpty();
  }

  lemma DeliveredInSecondChunk(fb: seq<JByte>)
    requires |fb| == RequiredLength / 2 && fb[..4] == MarkerBytes
    ensures Feed([], [fb[..0], fb[0..]]) == Outcome([], [ChunkText(fb)], [FrameReading(fb)])
  {
    assert fb[..0] == [] && fb[0..] == fb;
    FeedTwo([], [], fb);
    StepEmpty();
    StepPublishesFrame([], fb, fb);
  }

  lemma DeliveredAcrossChunks(fb: seq<JByte>, i: nat)
    requires |fb| == RequiredLength / 2 && fb[..4] == MarkerBytes && 4 <= i < |fb|
    ensures Feed([], [fb[..i], fb[i..]]) == Outcome([], [ChunkText(fb)], [FrameReading(fb)])
  {
    var t1 := ChunkText(fb[..i]);
    assert fb[..i][..4] == MarkerBytes;
    FrameMarker(fb[..i]);
    StepShape([], fb[..i]);
    assert [] + t1 == t1;
    assert Step([], fb[..i]) == Stepped(t1, None);
    ChunkTextSplit(fb, i);
    StepPublishesFrame(t1, fb[i..], fb);
    FeedTwo([], fb[..i], fb[i..]);
  }

  /** The step as evidently intended: a grown buffer that is still a proper prefix of the
      marker is kept for the next chunk instead of being cleared. */
  function StepKeepingPrefix(buffer: string, chunk: seq<JByte>): (r: Stepped)
    requires AllUpperHex(buffer)
    ensures AllUpperHex(r.buffer)
  {
    var b := buffer + ChunkText(chunk);
    if StartsWith(b, StartSequence) then
      if |b| >= RequiredLength then Stepped([], Some(Publication(b, Fields(b))))
      else Stepped(b, None)
    else if StartsWith(StartSequence, b) then Stepped(b, None)
    else Stepped([], None)
  }

  /** The corrected step differs from the written one only on a proper prefix of the
      marker, and keeps the buffer empty, a proper prefix of the marker, or an unfinished
      frame. */
  lemma StepKeepingPrefixAgrees(buffer: string, chunk: seq<JByte>)
    requires AllUpperHex(buffer)
    ensures var b := buffer + ChunkText(chunk);
      && ((StartsWith(StartSequence, b) && |b| < |StartSequence|) ||
          StepKeepingPrefix(buffer, chunk) == Step(buffer, chunk))
      && var r := StepKeepingPrefix(buffer, chunk);
         Holding(r.buffer) || (|r.buffer| < |StartSequence| && StartsWith(StartSequence, r.buffer))
  {
  }

  /** With the correction, every split of a frame into two chunks delivers it exactly once,
      with the fields read from its bytes. */
  lemma SplitFrameKeepingPrefix(fb: seq<JByte>, i: nat)
    requires |fb| == RequiredLength / 2 && fb[..4] == MarkerBytes && i <= |fb|
    ensures var r1 := StepKeepingPrefix([], fb[..i]);
      var r2 := StepKeepingPrefix(r1.buffer, fb[i..]);
      Record(Record(Outcome([], [], []), r1), r2) ==
        Outcome([], [ChunkText(fb)], [FrameReading(fb)])
  {
    if i == |fb| {
      SplitAtEnd(fb, i);
    } else {
      SplitInside(fb, i);
    }
  }

  lemma SplitAtEnd(fb: seq<JByte>, i: nat)
    requires |fb| == RequiredLength / 2 && fb[..4] == MarkerBytes && i == |fb|
    ensures var r1 := StepKeepingPrefix([], fb[..i]);
      var r2 := StepKeepingPrefix(r1.buffer, fb[i..]);
      Record(Record(Outcome([], [], []), r1), r2) ==
        Outcome([], [ChunkText(fb)], [FrameReading(fb)])
  {
    assert fb[..i] == fb && fb[i..] == [];
    WholeFirstChunk(fb);
  }

  lemma SplitInside(fb: seq<JByte>, i: nat)
    requires |fb| == RequiredLength / 2 && fb[..4] == MarkerBytes && i < |fb|
    ensures var r1 := StepKeepingPrefix([], fb[..i]);
      var r2 := StepKeepingPrefix(r1.buffer, fb[i..]);
      Record(Record(Outcome([], [], []), r1), r2) ==
        Outcome([], [ChunkText(fb)], [FrameReading(fb)])
  {
    FirstChunkKept(fb, i);
    SecondChunkCompletes(fb, i);
  }

  /** With the corrected step, a whole frame in one chunk is published, and an empty chunk
      after it changes nothing. */
  lemma WholeFirstChunk(fb: seq<JByte>)
    requires |fb| == RequiredLength / 2 && fb[..4] == MarkerBytes
    ensures StepKeepingPrefix([], fb) ==
      Stepped([], Some(Publication(ChunkText(fb), FrameReading(fb))))
    ensures StepKeepingPrefix([], []) == Stepped([], None)
  {
    StepPublishesFrame([], fb, fb);
    assert ChunkText([]) == [];
  }

  /** With the corrected step, the rest of a frame completes the kept first part. */
  lemma SecondChunkCompletes(fb: seq<JByte>, i: nat)
    requires |fb| == RequiredLength / 2 && fb[..4] == MarkerBytes && i < |fb|
    ensures StepKeepingPrefix(ChunkText(fb[..i]), fb[i..]) ==
      Stepped([], Some(Publication(ChunkText(fb), FrameReading(fb))))
  {
    ChunkTextSplit(fb, i);
    StepPublishesFrame(ChunkText(fb[..i]), fb[i..], fb);
  }

  /** With the corrected step, a first chunk that is a proper part of a frame is kept
      whole. */
  lemma FirstChunkKept(fb: seq<JByte>, i: nat)
    requires |fb| == RequiredLength / 2 && fb[..4] == MarkerBytes && i < |fb|
    ensures StepKeepingPrefix([], fb[..i]) == Stepped(ChunkText(fb[..i]), None)
  {
    var t1 := ChunkText(fb[..i]);
    assert [] + t1 == t1;
    if i < 4 {
      PrefixOfMarker(fb, i);
    } else {
      assert fb[..i][..4] == MarkerBytes;
      FrameMarker(fb[..i]);
    }
  }

  /** The text of fewer than four leading frame bytes is a proper prefix of the marker. */
  lemma PrefixOfMarker(fb: seq<JByte>, i: nat)
    requires |fb| >= 4 && fb[..4] == MarkerBytes && i < 4
    ensures var t1 := ChunkText(fb[..i]);
      StartsWith(StartSequence, t1) && !StartsWith(t1, StartSequence)
  {
    var t := ChunkText(fb[..4]);
    MarkerText();
    ChunkTextSplit(fb[..4], i);
    assert fb[..4][..i] == fb[..i];
  }

  // The buffer and sink side of the fragment. Serial-service calls are counted, and the
  // sink keeps every write in order (its current value is the last one).

  /** Fields with the values buffer, published, frames and disconnects are the values p0,
      f0 and c0 followed by outcome o: one disconnect per publication. */
  ghost predicate Extends(o: Outcome, buffer: string, published: seq<Reading>,
                          frames: seq<string>, disconnects: nat,
                          p0: seq<Reading>, f0: seq<string>, c0: nat)
  {
    && buffer == o.buffer
    && published == p0 + o.readings
    && frames == f0 + o.texts
    && disconnects == c0 + |o.readings|
  }

  /** Two stretches of receiving, one after the other. */
  lemma ExtendsThen(o1: Outcome, o2: Outcome, p1: seq<Reading>, f1: seq<string>, c1: nat,
                    buffer: string, published: seq<Reading>, frames: seq<string>,
                    disconnects: nat, p0: seq<Reading>, f0: seq<string>, c0: nat)
    requires Extends(o1, o1.buffer, p1, f1, c1, p0, f0, c0)
    requires Extends(o2, buffer, published, frames, disconnects, p1, f1, c1)
    ensures Extends(Then(o1, o2), buffer, published, frames, disconnects, p0, f0, c0)
  {
    assert p0 + o1.readings + o2.readings == p0 + (o1.readings + o2.readings);
    assert f0 + o1.texts + o2.texts == f0 + (o1.texts + o2.texts);
  }

  /** Feeding one more chunk: the outcome so far, then one step. */
  lemma FeedNext(buffer: string, chunks: seq<seq<JByte>>, n: nat)
    requires AllUpperHex(buffer) && n < |chunks|
    ensures var o := Feed(buffer, chunks[..n]);
      Feed(buffer, chunks[..n + 1]) ==
        Then(o, Record(Outcome(o.buffer, [], []), Step(o.buffer, chunks[n])))
  {
    var o := Feed(buffer, chunks[..n]);
    assert chunks[..n + 1][..n] == chunks[..n];
    RecordSplit(o, Step(o.buffer, chunks[n]));
  }

  /** The three ways one turn of receive's loop can go, stated against the test the source
      makes (`indexOf(startSequence) == 0`) and the fields it reads. */
  lemma StepCases(buffer: string, chunk: seq<JByte>)
    requires AllUpperHex(buffer)
    ensures var b := buffer + ChunkText(chunk);
      var o := Record(Outcome(buffer, [], []), Step(buffer, chunk));
      && AllUpperHex(b)
      && (IndexOfText(b, StartSequence) != 0 ==> o == Outcome([], [], []))
      && (IndexOfText(b, StartSequence) == 0 && |b| < RequiredLength ==>
            o == Outcome(b, [], []) && Holding(b))
      && (IndexOfText(b, StartSequence) == 0 && |b| >= RequiredLength ==>
            o == Outcome([], [b], [Reading(SignedByte(HexValue(b[126..128])) as int,
                                           HexValue(b[60..64]))]))
  {
    var b := buffer + ChunkText(chunk);
    assert AllUpperHex(b);
    IndexOfTextZero(b, StartSequence);
  }

  class Connection {
    /** accumulatedData */
    var accumulatedData: string
    /** writes to the sink, in order */
    var published: seq<Reading>
    /** every text handed to processAccumulatedData, in order */
    ghost var frames: seq<string>
    /** calls of service.disconnect */
    var disconnects: nat

    /** The buffer holds upper-case hex digits only, and is empty or an unfinished frame. */
    ghost predicate Valid()
      reads this
    {
      AllUpperHex(accumulatedData) && Holding(accumulatedData)
    }

    constructor()
      ensures Valid()
      ensures accumulatedData == [] && published == [] && frames == [] && disconnects == 0
    {
      accumulatedData := [];
      published := [];
      frames := [];
      disconnects := 0;
    }

    /** disconnect: asks the serial service to disconnect; the buffer is left as it is. */
    method Disconnect()
      modifies this`disconnects
      ensures disconnects == old(disconnects) + 1
    {
      disconnects := disconnects + 1;
    }

    /** onSerialConnectError and onSerialIoError: both disconnect. */
    method OnSerialError()
      modifies this`disconnects
      ensures disconnects == old(disconnects) + 1
    {
      Disconnect();
    }

    /** processAccumulatedData: the two fields go to the sink, status first. */
    method ProcessAccumulatedData(data: string, requiredByte: JByte, requiredBytes: int)
      modifies this`published, this`frames
      ensures published == old(published) + [Reading(requiredByte as int, requiredBytes)]
      ensures frames == old(frames) + [data]
    {
      published := published + [Reading(requiredByte as int, requiredBytes)];
      frames := frames + [data];
    }

    /** The body of receive's loop for one chunk, proved against Step. */
    method ReceiveChunk(data: seq<JByte>)
      requires Valid()
      modifies this`accumulatedData, this`published, this`frames, this`disconnects
      ensures Valid()
      ensures var o := Record(Outcome(old(accumulatedData), [], []), Step(old(accumulatedData), data));
        && accumulatedData == o.buffer
        && published == old(published) + o.readings
        && frames == old(frames) + o.texts
        && disconnects == old(disconnects) + |o.readings|
    {
      StepCases(accumulatedData, data);
      var hexString := ChunkText(data);
      accumulatedData := accumulatedData + hexString;
      CheckBuffer();
    }

    /** The rest of receive's loop body, once the chunk's text is appended: a buffer that
        begins with the marker and holds a whole frame is published, cleared and followed by
        a disconnect; one that begins with the marker but is shorter is kept; any other is
        cleared. */
    method CheckBuffer()
      requires AllUpperHex(accumulatedData)
      modifies this`accumulatedData, this`published, this`frames, this`disconnects
      ensures var b := old(accumulatedData);
        && (IndexOfText(b, StartSequence) != 0 ==>
              accumulatedData == [] && published == old(published) && frames == old(frames)
              && disconnects == old(disconnects))
        && (IndexOfText(b, StartSequence) == 0 && |b| < RequiredLength ==>
              accumulatedData == b && published == old(published) && frames == old(frames)
              && disconnects == old(disconnects))
        && (IndexOfText(b, StartSequence) == 0 && |b| >= RequiredLength ==>
              && accumulatedData == []
              && published == old(published) + [Reading(SignedByte(HexValue(b[126..128])) as int,
                                                       HexValue(b[60..64]))]
              && frames == old(frames) + [b] && disconnects == old(disconnects) + 1)
    {
      var requiredByte: JByte := 0;
      var requiredBytes := 0;
      if IndexOfText(accumulatedData, StartSequence) == 0 {
        if |accumulatedData| >= 128 {
          var intValue := HexValue(accumulatedData[126..128]);
          requiredByte := SignedByte(intValue);
        }
        if |accumulatedData| >= 64 {
          requiredBytes := HexValue(accumulatedData[60..64]);
        }
        if |accumulatedData| >= RequiredLength {
          ProcessAccumulatedData(accumulatedData, requiredByte, requiredBytes);
          accumulatedData := [];
          Disconnect();
        }
      } else {
        accumulatedData := [];
      }
    }

    /** receive, proved against Feed: the chunks are handled in order, one append and one
        check each. */
    method Receive(datas: seq<seq<JByte>>)
      requires Valid()
      modifies this`accumulatedData, this`published, this`frames, this`disconnects
      ensures Valid()
      ensures var o := Feed(old(accumulatedData), datas);
        && accumulatedData == o.buffer
        && published == old(published) + o.readings
        && frames == old(frames) + o.texts
        && disconnects == old(disconnects) + |o.readings|
    {
      for n := 0 to |datas|
        invariant Valid()
        invariant Extends(Feed(old(accumulatedData), datas[..n]), accumulatedData, published, frames,
                          disconnects, old(published), old(frames), old(disconnects))
      {
        ghost var o := Feed(old(accumulatedData), datas[..n]);
        ghost var published1, frames1, disconnects1 := published, frames, disconnects;
        FeedNext(old(accumulatedData), datas, n);
        ReceiveChunk(datas[n]);
        ExtendsThen(o, Record(Outcome(o.buffer, [], []), Step(o.buffer, datas[n])),
                    published1, frames1, disconnects1,
                    accumulatedData, published, frames, disconnects,
                    old(published), old(frames), old(disconnects));
      }
      assert datas[..|datas|] == datas;
    }

    /** onSerialRead with a single chunk. */
    method OnSerialRead(data: seq<JByte>)
      requires Valid()
      modifies this`accumulatedData, this`published, this`frames, this`disconnects
      ensures Valid()
      ensures var o := Feed(old(accumulatedData), [data]);
        && accumulatedData == o.buffer
        && published == old(published) + o.readings
        && frames == old(frames) + o.texts
        && disconnects == old(disconnects) + |o.readings|
    {
      Receive([data]);
    }
  }
}
