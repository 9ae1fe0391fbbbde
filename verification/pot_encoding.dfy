/** The POT layout written forwards: an encoder for points, strokes and
    records, and the round-trip theorems that tie it to the reader. A
    `RawRecord` is a record as it sits on disk; reading its encoding gives
    back its sample, and every record the reader emits is the encoding of
    the raw record made of the bytes it consumed. */
module PotEncoding {
  import opened LittleEndian
  import opened TagCode
  import opened PotReader

  function EncodePoint(p: Point): (bs: seq<byte>)
    ensures |bs| == 4
  {
    EncodeI16(p.x) + EncodeI16(p.y)
  }

  /** The points of a stroke followed by the stroke end. */
  function EncodeStroke(points: Stroke): (bs: seq<byte>)
    ensures |bs| == 4 * |points| + 4
  {
    if |points| == 0 then EncodePoint(StrokeEnd)
    else EncodePoint(points[0]) + EncodeStroke(points[1..])
  }

  function EncodeStrokes(strokes: seq<Stroke>): (bs: seq<byte>)
    ensures |bs| == 4 * |strokes| + CoordinateBytes(strokes)
  {
    if |strokes| == 0 then []
    else EncodeStroke(strokes[0]) + EncodeStrokes(strokes[1..])
  }

  /** One record as laid out in the file. */
  datatype RawRecord = RawRecord(sampleSize: u16, tagField: seq<byte>, strokes: seq<Stroke>, endTag: Point, padding: seq<byte>)

  /** The size of a record on disk: the fields before the strokes, the
      strokes with their stroke ends, the end tag and the padding. */
  function RecordLength(rec: RawRecord): nat
  {
    2 + |rec.tagField| + 2 + 4 * |rec.strokes| + CoordinateBytes(rec.strokes) + 4 + |rec.padding|
  }

  function EncodeRecord(rec: RawRecord): (bs: seq<byte>)
    requires |rec.strokes| < 0x1_0000
    ensures |bs| == RecordLength(rec)
  {
    EncodeU16(rec.sampleSize) + rec.tagField + EncodeU16(|rec.strokes|)
    + EncodeStrokes(rec.strokes) + EncodePoint(rec.endTag) + rec.padding
  }

  /** How many bytes the reader skips after a record with these strokes. */
  function PaddingLength(sampleSize: u16, strokes: seq<Stroke>): nat
  {
    if sampleSize > BytesRead(strokes) + 4 then sampleSize - BytesRead(strokes) - 4 else 0
  }

  /** A raw record the reader emits as a sample: nonzero size, a 4-byte tag
      field whose swapped code decodes, a stroke count that fits 16 bits,
      no stroke end inside a stroke, and exactly the padding that the
      declared size asks the reader to skip. */
  ghost predicate Emittable(codecs: Codecs, rec: RawRecord)
  {
    && rec.sampleSize != 0
    && |rec.tagField| == 4
    && DecodeTagCode(codecs, SwappedTagCode(rec.tagField)).Label?
    && |rec.strokes| < 0x1_0000
    && EndFree(rec.strokes)
    && |rec.padding| == PaddingLength(rec.sampleSize, rec.strokes)
  }

  ghost predicate AllEmittable(codecs: Codecs, recs: seq<RawRecord>)
  {
    forall i | 0 <= i < |recs| :: Emittable(codecs, recs[i])
  }

  /** The sample a raw record stands for. */
  function SampleOf(codecs: Codecs, rec: RawRecord): Sample
    requires Emittable(codecs, rec)
  {
    Sample(rec.sampleSize, DecodeTagCode(codecs, SwappedTagCode(rec.tagField)).text, |rec.strokes|, rec.strokes)
  }

  /** The warnings a raw record draws: a wrong end tag, a declared size
      smaller than the record's contents. */
  function WarningsOf(rec: RawRecord): seq<Warning>
  {
    var consumed := BytesRead(rec.strokes);
    (if rec.endTag != CharacterEnd then [InvalidEndTag(rec.endTag)] else [])
    + (if rec.sampleSize < consumed + 4 then [SizeMismatch(rec.sampleSize, consumed)] else [])
  }

  function EncodeRecords(recs: seq<RawRecord>): seq<byte>
    requires forall i | 0 <= i < |recs| :: |recs[i].strokes| < 0x1_0000
  {
    if |recs| == 0 then [] else EncodeRecord(recs[0]) + EncodeRecords(recs[1..])
  }

  function SamplesOf(codecs: Codecs, recs: seq<RawRecord>): (samples: seq<Sample>)
    requires AllEmittable(codecs, recs)
    ensures |samples| == |recs|
  {
    if |recs| == 0 then [] else [SampleOf(codecs, recs[0])] + SamplesOf(codecs, recs[1..])
  }

  function AllWarningsOf(recs: seq<RawRecord>): seq<Warning>
  {
    if |recs| == 0 then [] else WarningsOf(recs[0]) + AllWarningsOf(recs[1..])
  }

  /** Reading an encoded point yields it. */
  lemma PointRoundTrip(data: seq<byte>, pos: nat, p: Point)
    requires At(data, pos, EncodePoint(p))
    ensures PointAt(data, pos) == p
  {
    AtConcat(data, pos, EncodeI16(p.x), EncodeI16(p.y));
    I16RoundTrip(data, pos, p.x);
    I16RoundTrip(data, pos + 2, p.y);
  }

  /** Every 4 bytes are the encoding of the point read from them. */
  lemma PointComplete(data: seq<byte>, pos: nat)
    requires pos + 4 <= |data|
    ensures At(data, pos, EncodePoint(PointAt(data, pos)))
  {
    var p := PointAt(data, pos);
    I16Complete(data, pos);
    I16Complete(data, pos + 2);
    AtConcat(data, pos, EncodeI16(p.x), EncodeI16(p.y));
  }

  /** An encoded stroke with points starts with its first point's encoding. */
  lemma PointsSplit(data: seq<byte>, pos: nat, points: Stroke)
    requires |points| > 0 && At(data, pos, EncodeStroke(points))
    ensures At(data, pos, EncodePoint(points[0])) && At(data, pos + 4, EncodeStroke(points[1..]))
  {
    assert EncodeStroke(points) == EncodePoint(points[0]) + EncodeStroke(points[1..]);
    AtSplit(data, pos, EncodePoint(points[0]), EncodeStroke(points[1..]), pos + 4);
  }

  /** One more point in front: the recursive case of `ReadStroke`. */
  lemma ReadStrokeCons(data: seq<byte>, pos: nat, points: Stroke, end: nat)
    requires |points| > 0 && points[0] != StrokeEnd
    requires pos + 4 <= |data| && PointAt(data, pos) == points[0]
    requires ReadStroke(data, pos + 4) == Ok(StrokeRead(points[1..], end))
    ensures ReadStroke(data, pos) == Ok(StrokeRead(points, end))
  {
    assert [points[0]] + points[1..] == points;
  }

  /** Reading an encoded stroke yields its points and stops right after
      the stroke end, at `end`. */
  lemma {:induction false} StrokeRoundTrip(data: seq<byte>, pos: nat, points: Stroke, end: nat)
    requires At(data, pos, EncodeStroke(points)) && end == pos + |EncodeStroke(points)|
    requires StrokeEnd !in points
    ensures ReadStroke(data, pos) == Ok(StrokeRead(points, end))
    decreases |points|
  {
    if |points| == 0 {
      PointRoundTrip(data, pos, StrokeEnd);
    } else {
      PointsSplit(data, pos, points);
      PointRoundTrip(data, pos, points[0]);
      assert points[0] in points;
      StrokeRoundTrip(data, pos + 4, points[1..], end);
      ReadStrokeCons(data, pos, points, end);
    }
  }

  /** The bytes a successful stroke read consumed are the encoding of the
      points it returned. */
  lemma {:induction false} StrokeComplete(data: seq<byte>, pos: nat)
    requires ReadStroke(data, pos).Ok?
    ensures At(data, pos, EncodeStroke(ReadStroke(data, pos).value.points))
    decreases |data| - pos
  {
    var points := ReadStroke(data, pos).value.points;
    PointComplete(data, pos);
    if PointAt(data, pos) != StrokeEnd {
      var rest := ReadStroke(data, pos + 4);
      StrokeComplete(data, pos + 4);
      assert points == [PointAt(data, pos)] + rest.value.points;
      assert points[1..] == rest.value.points;
      AtConcat(data, pos, EncodePoint(points[0]), EncodeStroke(points[1..]));
    }
  }

  /** An encoded stroke list starts with its first stroke's encoding. */
  lemma StrokesSplit(data: seq<byte>, pos: nat, strokes: seq<Stroke>)
    requires |strokes| > 0 && At(data, pos, EncodeStrokes(strokes))
    ensures At(data, pos, EncodeStroke(strokes[0]))
    ensures At(data, pos + |EncodeStroke(strokes[0])|, EncodeStrokes(strokes[1..]))
    ensures |EncodeStrokes(strokes)| == |EncodeStroke(strokes[0])| + |EncodeStrokes(strokes[1..])|
  {
    assert EncodeStrokes(strokes) == EncodeStroke(strokes[0]) + EncodeStrokes(strokes[1..]);
    AtSplit(data, pos, EncodeStroke(strokes[0]), EncodeStrokes(strokes[1..]), pos + |EncodeStroke(strokes[0])|);
  }

  /** Reading `|strokes|` strokes from `pos` succeeds with `strokes`, ending at `end`. */
  ghost predicate ReadsBack(data: seq<byte>, pos: nat, strokes: seq<Stroke>, end: nat)
  {
    ReadStrokes(data, pos, |strokes|) == Ok(StrokesRead(strokes, end))
  }

  /** One more stroke in front: the recursive case of `ReadStrokes`. */
  lemma ReadStrokesCons(data: seq<byte>, pos: nat, strokes: seq<Stroke>, next: nat, end: nat)
    requires |strokes| > 0 && ReadStroke(data, pos) == Ok(StrokeRead(strokes[0], next))
    requires ReadsBack(data, next, strokes[1..], end)
    ensures ReadsBack(data, pos, strokes, end)
  {
    assert [strokes[0]] + strokes[1..] == strokes;
  }

  /** An encoded first stroke in front of the rest of the list read back
      from just after it: the whole list reads back. */
  lemma StrokesStep(data: seq<byte>, pos: nat, strokes: seq<Stroke>, end: nat)
    requires |strokes| > 0 && StrokeEnd !in strokes[0] && At(data, pos, EncodeStroke(strokes[0]))
    requires ReadsBack(data, pos + |EncodeStroke(strokes[0])|, strokes[1..], end)
    ensures ReadsBack(data, pos, strokes, end)
  {
    StrokeRoundTrip(data, pos, strokes[0], pos + |EncodeStroke(strokes[0])|);
    ReadStrokesCons(data, pos, strokes, pos + |EncodeStroke(strokes[0])|, end);
  }

  /** Every stroke after the first of an end-free list is end-free. */
  lemma EndFreeTail(strokes: seq<Stroke>)
    requires |strokes| > 0 && EndFree(strokes)
    ensures StrokeEnd !in strokes[0] && EndFree(strokes[1..])
  {
    forall i | 0 <= i < |strokes| - 1 ensures StrokeEnd !in strokes[1..][i] {
      assert strokes[1..][i] == strokes[i + 1];
    }
  }

  /** Reading back `|strokes|` encoded strokes yields them, ending right
      after the last stroke end. */
  lemma {:induction false} StrokesRoundTrip(data: seq<byte>, pos: nat, strokes: seq<Stroke>, end: nat)
    requires At(data, pos, EncodeStrokes(strokes)) && end == pos + |EncodeStrokes(strokes)|
    requires EndFree(strokes)
    ensures ReadsBack(data, pos, strokes, end)
    decreases |strokes|
  {
    if |strokes| != 0 {
      StrokesSplit(data, pos, strokes);
      EndFreeTail(strokes);
      StrokesRoundTrip(data, pos + |EncodeStroke(strokes[0])|, strokes[1..], end);
      StrokesStep(data, pos, strokes, end);
    }
  }

  /** The bytes a successful read of `n` strokes consumed are the encoding
      of the strokes it returned. */
  lemma {:induction false} StrokesComplete(data: seq<byte>, pos: nat, n: nat)
    requires pos <= |data| && ReadStrokes(data, pos, n).Ok?
    ensures At(data, pos, EncodeStrokes(ReadStrokes(data, pos, n).value.strokes))
    decreases n
  {
    var strokes := ReadStrokes(data, pos, n).value.strokes;
    if n != 0 {
      var first := ReadStroke(data, pos).value;
      StrokeComplete(data, pos);
      StrokesComplete(data, first.next, n - 1);
      var rest := ReadStrokes(data, first.next, n - 1).value;
      assert strokes == [first.points] + rest.strokes;
      assert strokes[1..] == rest.strokes;
      AtConcat(data, pos, EncodeStroke(strokes[0]), EncodeStrokes(strokes[1..]));
    }
  }

  /** Where the fields of an encoded record sit: each field occurs at its
      own offset from the start of the record. */
  lemma RecordFields(data: seq<byte>, pos: nat, rec: RawRecord)
    requires |rec.tagField| == 4 && |rec.strokes| < 0x1_0000
    requires At(data, pos, EncodeRecord(rec))
    ensures At(data, pos, EncodeU16(rec.sampleSize))
    ensures At(data, pos + 2, rec.tagField)
    ensures At(data, pos + 6, EncodeU16(|rec.strokes|))
    ensures At(data, pos + 8, EncodeStrokes(rec.strokes))
    ensures At(data, pos + BytesRead(rec.strokes), EncodePoint(rec.endTag))
    ensures At(data, pos + BytesRead(rec.strokes) + 4, rec.padding)
  {
    var size, count := EncodeU16(rec.sampleSize), EncodeU16(|rec.strokes|);
    var body, endTag := EncodeStrokes(rec.strokes), EncodePoint(rec.endTag);
    var endTagPos := pos + BytesRead(rec.strokes);
    AtSplit(data, pos, size + rec.tagField + count + body + endTag, rec.padding, endTagPos + 4);
    AtSplit(data, pos, size + rec.tagField + count + body, endTag, endTagPos);
    AtSplit(data, pos, size + rec.tagField + count, body, pos + 8);
    AtSplit(data, pos, size + rec.tagField, count, pos + 6);
    AtSplit(data, pos, size, rec.tagField, pos + 2);
  }

  /** Fields each occurring at their own offset from `pos` form an encoded
      record there. */
  lemma FieldsRecord(data: seq<byte>, pos: nat, rec: RawRecord)
    requires |rec.tagField| == 4 && |rec.strokes| < 0x1_0000
    requires At(data, pos, EncodeU16(rec.sampleSize))
    requires At(data, pos + 2, rec.tagField)
    requires At(data, pos + 6, EncodeU16(|rec.strokes|))
    requires At(data, pos + 8, EncodeStrokes(rec.strokes))
    requires At(data, pos + BytesRead(rec.strokes), EncodePoint(rec.endTag))
    requires At(data, pos + BytesRead(rec.strokes) + 4, rec.padding)
    ensures At(data, pos, EncodeRecord(rec))
  {
    var size, count := EncodeU16(rec.sampleSize), EncodeU16(|rec.strokes|);
    var body, endTag := EncodeStrokes(rec.strokes), EncodePoint(rec.endTag);
    var endTagPos := pos + BytesRead(rec.strokes);
    AtJoin(data, pos, size, rec.tagField, pos + 2);
    AtJoin(data, pos, size + rec.tagField, count, pos + 6);
    AtJoin(data, pos, size + rec.tagField + count, body, pos + 8);
    AtJoin(data, pos, size + rec.tagField + count + body, endTag, endTagPos);
    AtJoin(data, pos, size + rec.tagField + count + body + endTag, rec.padding, endTagPos + 4);
  }

  /** The body of an emittable record, read from its encoding. */
  lemma SampleRoundTrip(data: seq<byte>, pos: nat, rec: RawRecord, text: string)
    requires |rec.strokes| < 0x1_0000 && EndFree(rec.strokes)
    requires At(data, pos + 6, EncodeU16(|rec.strokes|))
    requires At(data, pos + 8, EncodeStrokes(rec.strokes))
    requires At(data, pos + BytesRead(rec.strokes), EncodePoint(rec.endTag))
    ensures ReadSample(data, pos, rec.sampleSize, text) ==
              Ok(FinishSample(rec.sampleSize, text, |rec.strokes|, rec.strokes, rec.endTag, pos + BytesRead(rec.strokes)))
  {
    U16RoundTrip(data, pos + 6, |rec.strokes|);
    StrokesRoundTrip(data, pos + 8, rec.strokes, pos + 8 + |EncodeStrokes(rec.strokes)|);
    PointRoundTrip(data, pos + BytesRead(rec.strokes), rec.endTag);
  }

  /** Reading an emittable record's encoding emits its sample and its
      warnings, and continues right after its padding. */
  lemma RecordRoundTrip(codecs: Codecs, data: seq<byte>, pos: nat, rec: RawRecord)
    requires Emittable(codecs, rec)
    requires At(data, pos, EncodeRecord(rec))
    ensures ReadRecord(codecs, data, pos) ==
              Ok(Emit(SampleOf(codecs, rec), WarningsOf(rec), pos + RecordLength(rec)))
  {
    RecordFields(data, pos, rec);
    U16RoundTrip(data, pos, rec.sampleSize);
    AtSlice(data, pos + 2, rec.tagField);
    var text := DecodeTagCode(codecs, SwappedTagCode(rec.tagField)).text;
    assert ReadRecord(codecs, data, pos) == ReadSample(data, pos, rec.sampleSize, text);
    SampleRoundTrip(data, pos, rec, text);
    FinishRoundTrip(codecs, pos, rec);
  }

  /** The sample, warnings and resume offset computed after the end tag of
      an emittable record are those the raw record stands for. */
  lemma FinishRoundTrip(codecs: Codecs, pos: nat, rec: RawRecord)
    requires Emittable(codecs, rec)
    ensures FinishSample(rec.sampleSize, DecodeTagCode(codecs, SwappedTagCode(rec.tagField)).text,
                         |rec.strokes|, rec.strokes, rec.endTag, pos + BytesRead(rec.strokes)) ==
            Emit(SampleOf(codecs, rec), WarningsOf(rec), pos + RecordLength(rec))
  {
  }

  /** The encoding of `recs` occurs in `data` from `pos` up to `end`. */
  ghost predicate EncodedAt(data: seq<byte>, pos: nat, recs: seq<RawRecord>, end: nat)
    requires forall i | 0 <= i < |recs| :: |recs[i].strokes| < 0x1_0000
  {
    At(data, pos, EncodeRecords(recs)) && end == pos + |EncodeRecords(recs)|
  }

  /** An encoded record list starts with its first record's encoding. */
  lemma RecordsSplit(data: seq<byte>, pos: nat, recs: seq<RawRecord>, end: nat)
    requires |recs| > 0 && forall i | 0 <= i < |recs| :: |recs[i].strokes| < 0x1_0000
    requires EncodedAt(data, pos, recs, end)
    ensures At(data, pos, EncodeRecord(recs[0]))
    ensures EncodedAt(data, pos + RecordLength(recs[0]), recs[1..], end)
  {
    assert EncodeRecords(recs) == EncodeRecord(recs[0]) + EncodeRecords(recs[1..]);
    AtSplit(data, pos, EncodeRecord(recs[0]), EncodeRecords(recs[1..]), pos + RecordLength(recs[0]));
  }

  /** The steps the loop takes over the records of `recs`, the first one
      starting at `pos`. */
  function StepsOf(codecs: Codecs, recs: seq<RawRecord>, pos: nat): (steps: seq<Step>)
    requires AllEmittable(codecs, recs)
    ensures |steps| == |recs|
    decreases |recs|
  {
    if |recs| == 0 then []
    else
      var next := pos + RecordLength(recs[0]);
      [Emit(SampleOf(codecs, recs[0]), WarningsOf(recs[0]), next)] + StepsOf(codecs, recs[1..], next)
  }

  lemma AllEmittableTail(codecs: Codecs, recs: seq<RawRecord>)
    requires |recs| > 0 && AllEmittable(codecs, recs)
    ensures Emittable(codecs, recs[0]) && AllEmittable(codecs, recs[1..])
  {
    assert Emittable(codecs, recs[0]);
    forall i | 0 <= i < |recs| - 1 ensures Emittable(codecs, recs[1..][i]) {
      assert recs[1..][i] == recs[i + 1];
    }
  }

  /** The loop, started at `pos`, emits the samples of `recs` one by one
      and then stops. */
  ghost predicate ReadsRecords(codecs: Codecs, data: seq<byte>, pos: nat, recs: seq<RawRecord>)
  {
    AllEmittable(codecs, recs) && Takes(codecs, data, pos, StepsOf(codecs, recs, pos))
  }

  /** A record whose pass emits its sample, in front of records the loop
      then emits: the loop emits all of them. */
  lemma TakesCons(codecs: Codecs, data: seq<byte>, pos: nat, recs: seq<RawRecord>)
    requires |recs| > 0 && AllEmittable(codecs, recs)
    requires Yields(codecs, data, pos, Emit(SampleOf(codecs, recs[0]), WarningsOf(recs[0]), pos + RecordLength(recs[0])))
    requires ReadsRecords(codecs, data, pos + RecordLength(recs[0]), recs[1..])
    ensures ReadsRecords(codecs, data, pos, recs)
  {
    var next := pos + RecordLength(recs[0]);
    var step, rest := Emit(SampleOf(codecs, recs[0]), WarningsOf(recs[0]), next), StepsOf(codecs, recs[1..], next);
    assert StepsOf(codecs, recs, pos) == [step] + rest;
    assert ([step] + rest)[1..] == rest;
  }

  /** The loop takes an emittable record's encoding as one emitted step. */
  lemma RecordTakes(codecs: Codecs, data: seq<byte>, pos: nat, recs: seq<RawRecord>)
    requires |recs| > 0 && AllEmittable(codecs, recs)
    requires At(data, pos, EncodeRecord(recs[0]))
    requires ReadsRecords(codecs, data, pos + RecordLength(recs[0]), recs[1..])
    ensures ReadsRecords(codecs, data, pos, recs)
  {
    AllEmittableTail(codecs, recs);
    RecordRoundTrip(codecs, data, pos, recs[0]);
    TakesCons(codecs, data, pos, recs);
  }

  /** Encoded records followed by the end of the stream make the loop emit
      them one by one and then stop. */
  lemma {:induction false} RecordsRoundTrip(codecs: Codecs, data: seq<byte>, pos: nat, recs: seq<RawRecord>, end: nat)
    requires AllEmittable(codecs, recs)
    requires EncodedAt(data, pos, recs, end) && EndOfStream(data, end)
    ensures ReadsRecords(codecs, data, pos, recs)
    decreases |recs|
  {
    if |recs| != 0 {
      var next := pos + RecordLength(recs[0]);
      AllEmittableTail(codecs, recs);
      RecordsSplit(data, pos, recs, end);
      RecordsRoundTrip(codecs, data, next, recs[1..], end);
      RecordTakes(codecs, data, pos, recs);
    }
  }

  /** The first step over `recs` is the emission of its first sample. */
  lemma AbsorbStepsCons(codecs: Codecs, acc: Parsed, recs: seq<RawRecord>, pos: nat, next: nat)
    requires |recs| > 0 && AllEmittable(codecs, recs) && next == pos + RecordLength(recs[0])
    ensures AllEmittable(codecs, recs[1..])
    ensures AbsorbAll(acc, StepsOf(codecs, recs, pos)) ==
              AbsorbAll(Absorb(acc, Emit(SampleOf(codecs, recs[0]), WarningsOf(recs[0]), next)), StepsOf(codecs, recs[1..], next))
  {
    AllEmittableTail(codecs, recs);
    var steps := StepsOf(codecs, recs, pos);
    assert steps[0] == Emit(SampleOf(codecs, recs[0]), WarningsOf(recs[0]), next);
    assert steps[1..] == StepsOf(codecs, recs[1..], next);
  }

  /** `a + x + rest` is `a + whole` when `whole` is `x + rest`. */
  lemma AppendFront<T>(a: seq<T>, x: seq<T>, rest: seq<T>, whole: seq<T>)
    requires whole == x + rest
    ensures a + x + rest == a + whole
  {
  }

  /** Absorbing the steps of `recs` appends their samples and warnings. */
  lemma {:induction false} AbsorbRecords(codecs: Codecs, acc: Parsed, recs: seq<RawRecord>, pos: nat)
    requires AllEmittable(codecs, recs)
    ensures AbsorbAll(acc, StepsOf(codecs, recs, pos)).samples == acc.samples + SamplesOf(codecs, recs)
    ensures AbsorbAll(acc, StepsOf(codecs, recs, pos)).warnings == acc.warnings + AllWarningsOf(recs)
    decreases |recs|
  {
    if |recs| == 0 {
      assert acc.samples + [] == acc.samples && acc.warnings + [] == acc.warnings;
    } else {
      var rec, tail := recs[0], recs[1..];
      var next := pos + RecordLength(rec);
      var sample := SampleOf(codecs, rec);
      var acc' := Absorb(acc, Emit(sample, WarningsOf(rec), next));
      AbsorbStepsCons(codecs, acc, recs, pos, next);
      AbsorbRecords(codecs, acc', tail, next);
      AppendFront(acc.samples, [sample], SamplesOf(codecs, tail), SamplesOf(codecs, recs));
      AppendFront(acc.warnings, WarningsOf(rec), AllWarningsOf(tail), AllWarningsOf(recs));
    }
  }

  /** The reader inverts the encoder: a stream of emittable records, ended
      by physical end of file (at most 1 byte left) or by a size of 0,
      reads back to exactly their samples, the label map they define, and
      their warnings. */
  lemma ReadPotRoundTrip(codecs: Codecs, recs: seq<RawRecord>, tail: seq<byte>)
    requires AllEmittable(codecs, recs)
    requires |tail| < 2 || (tail[0] == 0 && tail[1] == 0)
    ensures ReadPot(codecs, EncodeRecords(recs) + tail) ==
              Ok(Parsed(SamplesOf(codecs, recs), LabelMap(SamplesOf(codecs, recs)), AllWarningsOf(recs)))
  {
    var data := EncodeRecords(recs) + tail;
    var n := |EncodeRecords(recs)|;
    assert data[0..n] == EncodeRecords(recs);
    AtSlice(data, 0, EncodeRecords(recs));
    if |tail| >= 2 {
      assert data[n] == 0 && data[n + 1] == 0;
    }
    RecordsRoundTrip(codecs, data, 0, recs, n);
    LoopTakes(codecs, data, 0, StepsOf(codecs, recs, 0), Parsed([], map[], []));
    AbsorbRecords(codecs, Parsed([], map[], []), recs, 0);
    assert [] + SamplesOf(codecs, recs) == SamplesOf(codecs, recs);
    assert [] + AllWarningsOf(recs) == AllWarningsOf(recs);
  }

  /** An emitted step is the end-of-record computation applied to the
      fields read at `pos`. */
  lemma EmitFields(codecs: Codecs, data: seq<byte>, pos: nat)
    requires ReadRecord(codecs, data, pos).Ok? && ReadRecord(codecs, data, pos).value.Emit?
    ensures pos + 8 <= |data| && U16At(data, pos) != 0 && LabelAt(codecs, data, pos).Label?
    ensures var read := ReadStrokes(data, pos + 8, U16At(data, pos + 6));
            && read.Ok?
            && read.value.next + 4 <= |data|
            && ReadRecord(codecs, data, pos).value ==
                 FinishSample(U16At(data, pos), LabelAt(codecs, data, pos).text, U16At(data, pos + 6),
                              read.value.strokes, PointAt(data, read.value.next), read.value.next)
  {
  }

  /** The bytes from `pos` to the end of the padding are the encoding of
      the raw record made of the fields read there. */
  lemma ConsumedLayout(data: seq<byte>, pos: nat, rec: RawRecord)
    requires |rec.strokes| < 0x1_0000
    requires pos + BytesRead(rec.strokes) + 4 + |rec.padding| <= |data|
    requires rec.sampleSize == U16At(data, pos) && rec.tagField == data[pos + 2..pos + 6]
    requires |rec.strokes| == U16At(data, pos + 6)
    requires At(data, pos + 8, EncodeStrokes(rec.strokes))
    requires rec.endTag == PointAt(data, pos + BytesRead(rec.strokes))
    requires rec.padding == data[pos + BytesRead(rec.strokes) + 4..pos + BytesRead(rec.strokes) + 4 + |rec.padding|]
    ensures At(data, pos, EncodeRecord(rec))
  {
    var endTagPos := pos + BytesRead(rec.strokes);
    U16Complete(data, pos);
    U16Complete(data, pos + 6);
    PointComplete(data, endTagPos);
    AtSlice(data, pos + 2, rec.tagField);
    AtSlice(data, endTagPos + 4, rec.padding);
    FieldsRecord(data, pos, rec);
  }

  /** The raw record made of the bytes a record read consumed: the size
      and tag field as read, the strokes returned, the end tag after them
      and the padding up to `next`. */
  function ConsumedRecord(data: seq<byte>, pos: nat, strokes: seq<Stroke>, next: nat): RawRecord
    requires pos + BytesRead(strokes) + 4 <= next <= |data|
  {
    var endTagPos := pos + BytesRead(strokes);
    RawRecord(U16At(data, pos), data[pos + 2..pos + 6], strokes, PointAt(data, endTagPos), data[endTagPos + 4..next])
  }

  /** The step computed from the fields read at `pos` is the one the
      consumed raw record stands for. */
  lemma FieldsEmittable(codecs: Codecs, data: seq<byte>, pos: nat, strokes: seq<Stroke>, step: Step)
    requires pos + 8 <= |data| && U16At(data, pos) != 0 && LabelAt(codecs, data, pos).Label?
    requires |strokes| == U16At(data, pos + 6) && EndFree(strokes)
    requires pos + BytesRead(strokes) + 4 <= |data|
    requires step == FinishSample(U16At(data, pos), LabelAt(codecs, data, pos).text, U16At(data, pos + 6),
                                  strokes, PointAt(data, pos + BytesRead(strokes)), pos + BytesRead(strokes))
    requires step.next <= |data|
    ensures pos + BytesRead(strokes) + 4 <= step.next
    ensures var rec := ConsumedRecord(data, pos, strokes, step.next);
            && Emittable(codecs, rec)
            && step == Emit(SampleOf(codecs, rec), WarningsOf(rec), pos + RecordLength(rec))
  {
    var rec := ConsumedRecord(data, pos, strokes, step.next);
    assert LabelAt(codecs, data, pos) == DecodeTagCode(codecs, SwappedTagCode(rec.tagField));
    assert Emittable(codecs, rec);
    FinishRoundTrip(codecs, pos, rec);
  }

  /** The consumed raw record is laid out at `pos`. */
  lemma FieldsLayout(data: seq<byte>, pos: nat, strokes: seq<Stroke>, next: nat)
    requires pos + 8 <= |data|
    requires ReadStrokes(data, pos + 8, U16At(data, pos + 6)) == Ok(StrokesRead(strokes, pos + BytesRead(strokes)))
    requires pos + BytesRead(strokes) + 4 <= next <= |data|
    ensures At(data, pos, EncodeRecord(ConsumedRecord(data, pos, strokes, next)))
  {
    StrokesComplete(data, pos + 8, U16At(data, pos + 6));
    ConsumedLayout(data, pos, ConsumedRecord(data, pos, strokes, next));
  }

  /** Every record the reader emits, when its padding lies inside the
      stream, is the encoding of an emittable raw record standing for the
      sample and warnings it produced; the witness is the raw record made of
      the bytes the read consumed. */
  lemma RecordComplete(codecs: Codecs, data: seq<byte>, pos: nat)
    requires ReadRecord(codecs, data, pos).Ok? && ReadRecord(codecs, data, pos).value.Emit?
    requires ReadRecord(codecs, data, pos).value.next <= |data|
    ensures var step := ReadRecord(codecs, data, pos).value;
            exists rec: RawRecord :: && Emittable(codecs, rec)
                                     && step == Emit(SampleOf(codecs, rec), WarningsOf(rec), pos + RecordLength(rec))
                                     && At(data, pos, EncodeRecord(rec))
  {
    var step := ReadRecord(codecs, data, pos).value;
    EmitFields(codecs, data, pos);
    FieldsEmittable(codecs, data, pos, step.sample.strokes, step);
    FieldsLayout(data, pos, step.sample.strokes, step.next);
    var rec := ConsumedRecord(data, pos, step.sample.strokes, step.next);
    assert Emittable(codecs, rec) && step == Emit(SampleOf(codecs, rec), WarningsOf(rec), pos + RecordLength(rec));
  }

  /** The example codecs: GB2312 reads B0 A1 as U+554A and rejects every
      other byte string; GBK rejects everything. */
  const ExampleCodecs := Codecs(bs => if bs == [0xB0, 0xA1] then Some("\U{554A}") else None, bs => None)

  /** One stroke of the points (10, 20) and (11, 21). */
  const ExampleStroke: Stroke := [Point(10, 20), Point(11, 21)]

  /** A record of size 24 whose tag field A1 B0 00 00 holds the GB2312
      code B0A1 byte-swapped, with the example stroke, the regular end tag
      and no padding. */
  const ExampleRecord := RawRecord(24, [0xA1, 0xB0, 0, 0], [ExampleStroke], CharacterEnd, [])

  const ExampleBytes: seq<byte> :=
    [24, 0, 0xA1, 0xB0, 0, 0, 1, 0, 10, 0, 20, 0, 11, 0, 21, 0, 0xFF, 0xFF, 0, 0, 0xFF, 0xFF, 0xFF, 0xFF]

  /** The example record is emittable, stands for the sample labelled
      U+554A and draws no warning. */
  lemma ExampleEmittable()
    ensures Emittable(ExampleCodecs, ExampleRecord)
    ensures SampleOf(ExampleCodecs, ExampleRecord) == Sample(24, "\U{554A}", 1, [ExampleStroke])
    ensures WarningsOf(ExampleRecord) == []
  {
    var rec := ExampleRecord;
    assert SwappedTagCode(rec.tagField) == [0xB0, 0xA1];
    StripNullsIdentity([0xB0, 0xA1]);
    assert CoordinateBytes([ExampleStroke]) == 8 + CoordinateBytes([]);
  }

  /** The example stroke is laid out as its two points and the stroke end. */
  lemma ExampleStrokeEncoding()
    ensures EncodeStrokes([ExampleStroke]) == [10, 0, 20, 0, 11, 0, 21, 0, 0xFF, 0xFF, 0, 0]
  {
    var stroke := ExampleStroke;
    assert EncodePoint(StrokeEnd) == [0xFF, 0xFF, 0, 0];
    assert EncodeStroke(stroke[1..]) == [11, 0, 21, 0, 0xFF, 0xFF, 0, 0] by {
      assert EncodePoint(stroke[1]) == [11, 0, 21, 0];
      assert stroke[1..][1..] == [];
    }
    assert EncodeStroke(stroke) == [10, 0, 20, 0] + EncodeStroke(stroke[1..]);
    assert EncodeStrokes([stroke]) == EncodeStroke(stroke) + EncodeStrokes([]);
  }

  /** The example record is laid out as the 24 example bytes. */
  lemma ExampleEncoding()
    ensures EncodeRecords([ExampleRecord]) == ExampleBytes
  {
    ExampleStrokeEncoding();
    var rec := ExampleRecord;
    var head := EncodeU16(24) + rec.tagField + EncodeU16(1);
    assert head == [24, 0, 0xA1, 0xB0, 0, 0, 1, 0];
    var body := head + EncodeStrokes(rec.strokes);
    assert body == [24, 0, 0xA1, 0xB0, 0, 0, 1, 0, 10, 0, 20, 0, 11, 0, 21, 0, 0xFF, 0xFF, 0, 0];
    assert EncodePoint(CharacterEnd) == [0xFF, 0xFF, 0xFF, 0xFF];
    assert body + EncodePoint(rec.endTag) + rec.padding == ExampleBytes;
    assert EncodeRecords([rec]) == EncodeRecord(rec) + EncodeRecords([]);
  }

  /** The 24 example bytes read to one sample holding exactly the example
      stroke under the label U+554A, with no warning. */
  lemma WorkedExample()
    ensures ReadPot(ExampleCodecs, ExampleBytes) ==
              Ok(Parsed([Sample(24, "\U{554A}", 1, [ExampleStroke])], map["\U{554A}" := [ExampleStroke]], []))
  {
    var sample := Sample(24, "\U{554A}", 1, [ExampleStroke]);
    ExampleEmittable();
    ExampleEncoding();
    assert SamplesOf(ExampleCodecs, [ExampleRecord]) == [sample];
    assert AllWarningsOf([ExampleRecord]) == [];
    assert [sample][..0] == [];
    assert ExampleBytes + [] == ExampleBytes;
    ReadPotRoundTrip(ExampleCodecs, [ExampleRecord], []);
  }
}
