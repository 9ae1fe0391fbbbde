/** The reader as the source writes it: one cursor moving forward through
    the stream, a `while True` loop over records, a counted loop over
    strokes and a sentinel loop over points. Each method is proved to
    compute exactly what the recursive definition in `PotReader` does. */
module PotStream {
  import opened LittleEndian
  import opened TagCode
  import opened PotReader

  /** `points` followed by whatever the rest of the stroke reads to. */
  function PrependPoints(points: seq<Point>, r: Result<StrokeRead>): Result<StrokeRead>
  {
    match r
    case Err(t) => Err(t)
    case Ok(rest) => Ok(StrokeRead(points + rest.points, rest.next))
  }

  /** `strokes` followed by whatever the remaining strokes read to. */
  function PrependStrokes(strokes: seq<Stroke>, r: Result<StrokesRead>): Result<StrokesRead>
  {
    match r
    case Err(t) => Err(t)
    case Ok(rest) => Ok(StrokesRead(strokes + rest.strokes, rest.next))
  }

  lemma PrependPointsAssoc(points: seq<Point>, point: Point, r: Result<StrokeRead>)
    ensures PrependPoints(points, PrependPoints([point], r)) == PrependPoints(points + [point], r)
  {
    if r.Ok? {
      assert points + ([point] + r.value.points) == (points + [point]) + r.value.points;
    }
  }

  lemma PrependStrokesAssoc(strokes: seq<Stroke>, stroke: Stroke, r: Result<StrokesRead>)
    ensures PrependStrokes(strokes, PrependStrokes([stroke], r)) == PrependStrokes(strokes + [stroke], r)
  {
    if r.Ok? {
      assert strokes + ([stroke] + r.value.strokes) == (strokes + [stroke]) + r.value.strokes;
    }
  }

  /** Reads the points of one stroke, 4 bytes at a time, up to and
      including the stroke-end point. */
  method ReadPoints(data: seq<byte>, pos: nat) returns (r: Result<StrokeRead>)
    ensures r == ReadStroke(data, pos)
  {
    var points: seq<Point> := [];
    var cursor := pos;
    assert ReadStroke(data, pos).Ok? ==> [] + ReadStroke(data, pos).value.points == ReadStroke(data, pos).value.points;
    while true
      invariant ReadStroke(data, pos) == PrependPoints(points, ReadStroke(data, cursor))
      decreases |data| - cursor
    {
      if cursor + 4 > |data| {
        return Err(InCoordinates);
      }
      var point := PointAt(data, cursor);
      cursor := cursor + 4;
      if point == StrokeEnd {
        assert points + [] == points;
        return Ok(StrokeRead(points, cursor));
      }
      assert ReadStroke(data, cursor - 4) == PrependPoints([point], ReadStroke(data, cursor));
      PrependPointsAssoc(points, point, ReadStroke(data, cursor));
      points := points + [point];
    }
  }

  /** Reads `strokeNumber` strokes one after the other. */
  method ReadStrokeList(data: seq<byte>, pos: nat, strokeNumber: u16) returns (r: Result<StrokesRead>)
    ensures r == ReadStrokes(data, pos, strokeNumber)
  {
    var strokes: seq<Stroke> := [];
    var cursor := pos;
    var k := 0;
    assert ReadStrokes(data, pos, strokeNumber).Ok? ==>
             [] + ReadStrokes(data, pos, strokeNumber).value.strokes == ReadStrokes(data, pos, strokeNumber).value.strokes;
    while k < strokeNumber
      invariant k <= strokeNumber
      invariant ReadStrokes(data, pos, strokeNumber) == PrependStrokes(strokes, ReadStrokes(data, cursor, strokeNumber - k))
    {
      var stroke := ReadPoints(data, cursor);
      if stroke.Err? {
        return Err(stroke.truncated);
      }
      assert ReadStrokes(data, cursor, strokeNumber - k) ==
               PrependStrokes([stroke.value.points], ReadStrokes(data, stroke.value.next, strokeNumber - k - 1));
      PrependStrokesAssoc(strokes, stroke.value.points, ReadStrokes(data, stroke.value.next, strokeNumber - k - 1));
      strokes := strokes + [stroke.value.points];
      cursor := stroke.value.next;
      k := k + 1;
    }
    assert strokes + [] == strokes;
    return Ok(StrokesRead(strokes, cursor));
  }

  /** The loop body after a decoded label, from the record start `pos`. */
  method ReadSampleAt(data: seq<byte>, pos: nat, sampleSize: u16, tagCode: string) returns (r: Result<Step>)
    ensures r == ReadSample(data, pos, sampleSize, tagCode)
  {
    var cursor := pos + 6;
    if cursor + 2 > |data| {
      return Err(InStrokeNumber);
    }
    var strokeNumber := U16At(data, cursor);
    cursor := cursor + 2;
    var read := ReadStrokeList(data, cursor, strokeNumber);
    if read.Err? {
      return Err(read.truncated);
    }
    var strokes := read.value.strokes;
    cursor := read.value.next;
    var bytesRead := BytesRead(strokes);
    if cursor + 4 > |data| {
      return Err(InEndTag);
    }
    var endTag := PointAt(data, cursor);
    cursor := cursor + 4;
    var warnings: seq<Warning> := [];
    if endTag != CharacterEnd {
      warnings := [InvalidEndTag(endTag)];
    }
    var remaining := sampleSize - bytesRead - 4;
    if remaining > 0 {
      cursor := cursor + remaining;
    } else if remaining < 0 {
      warnings := warnings + [SizeMismatch(sampleSize, bytesRead)];
    }
    assert warnings == (if endTag != CharacterEnd then [InvalidEndTag(endTag)] else [])
                       + (if remaining < 0 then [SizeMismatch(sampleSize, bytesRead)] else []);
    return Ok(Emit(Sample(sampleSize, tagCode, strokeNumber, strokes), warnings, cursor));
  }

  /** One pass of the loop body from the record start `pos`. */
  method ReadRecordAt(codecs: Codecs, data: seq<byte>, pos: nat) returns (r: Result<Step>)
    ensures r == ReadRecord(codecs, data, pos)
  {
    var cursor := pos;
    if cursor + 2 > |data| {
      return Ok(Stop);
    }
    var sampleSize := U16At(data, cursor);
    cursor := cursor + 2;
    if sampleSize == 0 {
      return Ok(Stop);
    }
    if cursor + 4 > |data| {
      return Err(InTagCode);
    }
    var tagField := data[cursor..cursor + 4];
    cursor := cursor + 4;
    var tagCode := DecodeTagCode(codecs, SwappedTagCode(tagField));
    if tagCode.Failure? {
      return Ok(Skip(tagField, tagCode.reason, cursor));
    }
    r := ReadSampleAt(data, pos, sampleSize, tagCode.text);
  }

  /** The record loop of `read_pot_file`: reads records until a short
      size field or a size of 0, raising on any other short read. */
  method ReadPotStream(codecs: Codecs, data: seq<byte>) returns (r: Result<Parsed>)
    ensures r == ReadPot(codecs, data)
  {
    var samples: seq<Sample> := [];
    var charList: map<string, seq<Stroke>> := map[];
    var warnings: seq<Warning> := [];
    var cursor := 0;
    while true
      invariant ReadPot(codecs, data) == ReadLoop(codecs, data, cursor, Parsed(samples, charList, warnings))
      decreases |data| - cursor
    {
      var step := ReadRecordAt(codecs, data, cursor);
      match step {
        case Err(t) =>
          return Err(t);
        case Ok(Stop) =>
          break;
        case Ok(Skip(tagField, reason, next)) =>
          warnings := warnings + [SkippedEntry(tagField, reason)];
          cursor := next;
        case Ok(Emit(sample, recordWarnings, next)) =>
          samples := samples + [sample];
          charList := charList[sample.tagCode := sample.strokes];
          warnings := warnings + recordWarnings;
          cursor := next;
      }
    }
    return Ok(Parsed(samples, charList, warnings));
  }
}
