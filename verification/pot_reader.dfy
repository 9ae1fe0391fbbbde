/** The POT record reader, as a pure parser over an immutable byte sequence
    with an integer cursor. `read_pot_file` and `read_pot_zip_file` run the
    same loop over a file and over an archive member; both are `ReadPot`
    applied to the bytes of their source. */
module PotReader {
  import opened LittleEndian
  import opened TagCode

  /** A pen-tip position, two little-endian signed 16-bit values. */
  datatype Point = Point(x: i16, y: i16)

  /** Terminates the point run of one stroke; consumed, never stored. */
  const StrokeEnd: Point := Point(-1, 0)

  /** The value the character end tag is expected to hold. */
  const CharacterEnd: Point := Point(-1, -1)

  type Stroke = seq<Point>

  /** One emitted record: the dictionary the reader appends to `samples`. */
  datatype Sample = Sample(sampleSize: u16, tagCode: string, strokeNumber: u16, strokes: seq<Stroke>)

  /** The field whose read came back short: the four `ValueError`s. */
  datatype Truncated = InTagCode | InStrokeNumber | InCoordinates | InEndTag

  datatype Result<T> = Ok(value: T) | Err(truncated: Truncated)

  /** The non-fatal conditions the reader reports and carries on after. */
  datatype Warning =
    | SkippedEntry(tagField: seq<byte>, reason: LabelError)
    | InvalidEndTag(endTag: Point)
    | SizeMismatch(sampleSize: u16, bytesRead: nat)

  /** What a complete run returns: `samples`, `char_list`, and the warnings. */
  datatype Parsed = Parsed(samples: seq<Sample>, charList: map<string, seq<Stroke>>, warnings: seq<Warning>)

  /** The point `struct.unpack('<hh', ...)` reads from the 4 bytes at `pos`. */
  function PointAt(data: seq<byte>, pos: nat): Point
    requires pos + 4 <= |data|
  {
    Point(I16At(data, pos), I16At(data, pos + 2))
  }

  /** The record loop stops normally at `pos`: fewer than 2 bytes are left
      for the size field, or the size is 0. */
  predicate EndOfStream(data: seq<byte>, pos: nat)
  {
    pos + 2 > |data| || U16At(data, pos) == 0
  }

  /** No 4-byte slot from `pos` to the end of `data` holds the stroke end. */
  ghost predicate NoStrokeEnd(data: seq<byte>, pos: nat)
  {
    forall q | pos <= q && q + 4 <= |data| && (q - pos) % 4 == 0 :: PointAt(data, q) != StrokeEnd
  }

  /** Total size of the coordinate pairs of `strokes`: `sum(len(s) * 4)`. */
  function CoordinateBytes(strokes: seq<Stroke>): nat
  {
    if |strokes| == 0 then 0 else 4 * |strokes[0]| + CoordinateBytes(strokes[1..])
  }

  /** `bytes_read`: size, tag and stroke-count fields, one stroke end per
      stroke, and the points; the end tag is not included. */
  function BytesRead(strokes: seq<Stroke>): nat
  {
    2 + 4 + 2 + |strokes| * 4 + CoordinateBytes(strokes)
  }

  /** No stroke of `strokes` holds the stroke-end point. */
  ghost predicate EndFree(strokes: seq<Stroke>)
  {
    forall i | 0 <= i < |strokes| :: StrokeEnd !in strokes[i]
  }

  /** Every sample agrees with its stroke count and no stored stroke holds
      the stroke-end point. */
  ghost predicate WellFormedSamples(samples: seq<Sample>)
  {
    forall s | s in samples ::
      s.strokeNumber == |s.strokes| && EndFree(s.strokes)
  }

  /** Reference definition of `char_list`: the labels of `samples` mapped
      from first to last, a later sample overwriting an earlier one. */
  function LabelMap(samples: seq<Sample>): map<string, seq<Stroke>>
  {
    if |samples| == 0 then map[]
    else
      var last := samples[|samples| - 1];
      LabelMap(samples[..|samples| - 1])[last.tagCode := last.strokes]
  }

  lemma NoStrokeEndStep(data: seq<byte>, pos: nat)
    requires pos + 4 <= |data|
    ensures NoStrokeEnd(data, pos) <==> PointAt(data, pos) != StrokeEnd && NoStrokeEnd(data, pos + 4)
  {
    if PointAt(data, pos) != StrokeEnd && NoStrokeEnd(data, pos + 4) {
      forall q | pos <= q && q + 4 <= |data| && (q - pos) % 4 == 0
        ensures PointAt(data, q) != StrokeEnd
      {
        if q != pos {
          assert (q - (pos + 4)) % 4 == 0;
        }
      }
    }
  }

  datatype StrokeRead = StrokeRead(points: Stroke, next: nat)

  /** The inner `while True` loop: reads 4-byte points from `pos` until the
      stroke end, which is consumed but not kept. A short read is fatal. */
  function ReadStroke(data: seq<byte>, pos: nat): (r: Result<StrokeRead>)
    ensures r.Err? ==> r.truncated == InCoordinates
    ensures r.Ok? ==>
      && r.value.next == pos + 4 * |r.value.points| + 4 <= |data|
      && StrokeEnd !in r.value.points
    decreases |data| - pos
  {
    if pos + 4 > |data| then
      Err(InCoordinates)
    else
      var p := PointAt(data, pos);
      if p == StrokeEnd then
        Ok(StrokeRead([], pos + 4))
      else
        match ReadStroke(data, pos + 4)
        case Err(t) => Err(t)
        case Ok(rest) => Ok(StrokeRead([p] + rest.points, rest.next))
  }

  /** A stroke read succeeds exactly when some 4-byte slot from `pos` holds
      the stroke end; the points returned are the slots before the first
      such one, in order, and the cursor stops right after it. */
  lemma {:induction false} ReadStrokeSpec(data: seq<byte>, pos: nat)
    ensures ReadStroke(data, pos).Err? <==> NoStrokeEnd(data, pos)
    ensures ReadStroke(data, pos).Ok? ==>
      var read := ReadStroke(data, pos).value;
      && (forall i | 0 <= i < |read.points| :: read.points[i] == PointAt(data, pos + 4 * i))
      && PointAt(data, read.next - 4) == StrokeEnd
    decreases |data| - pos
  {
    if pos + 4 <= |data| {
      NoStrokeEndStep(data, pos);
      var p := PointAt(data, pos);
      if p != StrokeEnd {
        ReadStrokeSpec(data, pos + 4);
        var r := ReadStroke(data, pos);
        if r.Ok? {
          var rest := ReadStroke(data, pos + 4).value;
          assert r.value.points == [p] + rest.points;
          assert forall i | 1 <= i < |r.value.points| :: r.value.points[i] == rest.points[i - 1];
          var q := r.value.next - 4;
          assert (q - pos) % 4 == 0 by { assert q - pos == 4 * |r.value.points|; }
        }
      }
    }
  }

  datatype StrokesRead = StrokesRead(strokes: seq<Stroke>, next: nat)

  /** The `for _ in range(stroke_number)` loop: `n` strokes read back to back. */
  function ReadStrokes(data: seq<byte>, pos: nat, n: nat): (r: Result<StrokesRead>)
    ensures r.Err? ==> r.truncated == InCoordinates
    ensures r.Ok? ==>
      && |r.value.strokes| == n
      && r.value.next == pos + 4 * n + CoordinateBytes(r.value.strokes)
      && (pos <= |data| ==> r.value.next <= |data|)
      && EndFree(r.value.strokes)
    decreases n
  {
    if n == 0 then
      Ok(StrokesRead([], pos))
    else
      match ReadStroke(data, pos)
      case Err(t) => Err(t)
      case Ok(first) =>
        match ReadStrokes(data, first.next, n - 1)
        case Err(t) => Err(t)
        case Ok(rest) =>
          var strokes := [first.points] + rest.strokes;
          assert strokes[1..] == rest.strokes;
          Ok(StrokesRead(strokes, rest.next))
  }

  /** What one pass of the `while True` body does from a record start. */
  datatype Step =
    | Stop                                                  // the two `break`s
    | Skip(tagField: seq<byte>, reason: LabelError, next: nat)  // the `continue`
    | Emit(sample: Sample, warnings: seq<Warning>, next: nat)   // a sample appended

  /** The label the reader derives from the tag field at `pos + 2`. */
  function LabelAt(codecs: Codecs, data: seq<byte>, pos: nat): Decoded
    requires pos + 6 <= |data|
  {
    DecodeTagCode(codecs, SwappedTagCode(data[pos + 2..pos + 6]))
  }

  /** The facts about the body of a record at `pos` that the reader
      emitted as `sample`, stated on the raw bytes: the stroke count, the
      strokes, the end tag and the resynchronised cursor `next`. */
  ghost predicate BodyAt(data: seq<byte>, pos: nat, sample: Sample, warnings: seq<Warning>, next: nat)
  {
    var size := sample.sampleSize;
    var consumed := BytesRead(sample.strokes);
    && pos + consumed + 4 <= |data|
    && sample.strokeNumber == U16At(data, pos + 6) == |sample.strokes|
    && EndFree(sample.strokes)
    && (InvalidEndTag(PointAt(data, pos + consumed)) in warnings <==> PointAt(data, pos + consumed) != CharacterEnd)
    && (SizeMismatch(size, consumed) in warnings <==> size < consumed + 4)
    && next == pos + (if size > consumed + 4 then size else consumed + 4)
  }

  /** The facts about a record at `pos` that the reader emitted as `sample`. */
  ghost predicate EmittedAt(codecs: Codecs, data: seq<byte>, pos: nat, sample: Sample, warnings: seq<Warning>, next: nat)
  {
    && pos + 6 <= |data|
    && sample.sampleSize == U16At(data, pos)
    && LabelAt(codecs, data, pos) == Label(sample.tagCode)
    && BodyAt(data, pos, sample, warnings, next)
  }

  /** The end of a record whose end tag `endTag` was read at `endTagPos`:
      the warnings about the end tag and the declared size, and the cursor
      after the forward seek, which is skipped when the remainder is not
      positive. */
  function FinishSample(sampleSize: u16, tagCode: string, strokeNumber: u16, strokes: seq<Stroke>,
                        endTag: Point, endTagPos: nat): Step
  {
    var bytesRead := BytesRead(strokes);
    var remaining := sampleSize - bytesRead - 4;
    var next := if remaining > 0 then endTagPos + 4 + remaining else endTagPos + 4;
    var warnings :=
      (if endTag != CharacterEnd then [InvalidEndTag(endTag)] else [])
      + (if remaining < 0 then [SizeMismatch(sampleSize, bytesRead)] else []);
    Emit(Sample(sampleSize, tagCode, strokeNumber, strokes), warnings, next)
  }

  /** The part of one record after a decoded label: the stroke count, the
      strokes, the end tag (any value other than (-1, -1) only warns), then
      the forward seek over `sample_size - bytes_read - 4` bytes when that
      is positive; when it is negative the cursor stays after the end tag. */
  function ReadSample(data: seq<byte>, pos: nat, sampleSize: u16, tagCode: string): (r: Result<Step>)
    ensures r == Err(InStrokeNumber) <==> pos + 8 > |data|
    ensures r.Ok? ==>
              && r.value.Emit?
              && r.value.sample.sampleSize == sampleSize
              && r.value.sample.tagCode == tagCode
              && BodyAt(data, pos, r.value.sample, r.value.warnings, r.value.next)
  {
    if pos + 8 > |data| then Err(InStrokeNumber)
    else
      var strokeNumber := U16At(data, pos + 6);
      match ReadStrokes(data, pos + 8, strokeNumber)
      case Err(t) => Err(t)
      case Ok(read) =>
        if read.next + 4 > |data| then Err(InEndTag)
        else Ok(FinishSample(sampleSize, tagCode, strokeNumber, read.strokes, PointAt(data, read.next), read.next))
  }

  /** One record from `pos`: a short size field or a size of 0 stops the
      loop; a short tag field is fatal; a tag code that does not decode
      skips the record with the cursor just after the tag field. */
  function ReadRecord(codecs: Codecs, data: seq<byte>, pos: nat): (r: Result<Step>)
    ensures r == Ok(Stop) <==> EndOfStream(data, pos)
    ensures r == Err(InTagCode) <==> pos + 2 <= |data| && U16At(data, pos) != 0 && pos + 6 > |data|
    ensures r.Ok? && r.value.Skip? <==>
              pos + 6 <= |data| && U16At(data, pos) != 0 && LabelAt(codecs, data, pos).Failure?
    ensures r.Ok? && r.value.Skip? ==>
              && r.value.next == pos + 6
              && r.value.tagField == data[pos + 2..pos + 6]
              && LabelAt(codecs, data, pos) == Failure(r.value.reason)
    ensures r == Err(InStrokeNumber) <==>
              pos + 6 <= |data| && U16At(data, pos) != 0 && LabelAt(codecs, data, pos).Label? && pos + 8 > |data|
    ensures r.Ok? && r.value.Emit? ==>
              EmittedAt(codecs, data, pos, r.value.sample, r.value.warnings, r.value.next)
    ensures r.Ok? && !r.value.Stop? ==> pos + 2 <= |data| && r.value.next > pos
  {
    if pos + 2 > |data| then Ok(Stop)
    else
      var sampleSize := U16At(data, pos);
      if sampleSize == 0 then Ok(Stop)
      else if pos + 6 > |data| then Err(InTagCode)
      else
        var tagField := data[pos + 2..pos + 6];
        match DecodeTagCode(codecs, SwappedTagCode(tagField))
        case Failure(reason) => Ok(Skip(tagField, reason, pos + 6))
        case Label(tagCode) => ReadSample(data, pos, sampleSize, tagCode)
  }

  /** The warnings a record at `pos` with the declared size `sampleSize`
      and the strokes `strokes` prints, in order: one for an end tag other
      than (-1, -1), then one when the size is short of the bytes read. */
  function SampleWarnings(data: seq<byte>, pos: nat, sampleSize: u16, strokes: seq<Stroke>): seq<Warning>
    requires pos + BytesRead(strokes) + 4 <= |data|
  {
    var consumed := BytesRead(strokes);
    var endTag := PointAt(data, pos + consumed);
    (if endTag != CharacterEnd then [InvalidEndTag(endTag)] else [])
    + (if sampleSize < consumed + 4 then [SizeMismatch(sampleSize, consumed)] else [])
  }

  /** Which field a short read in the body of a record names: the
      coordinates exactly when the stroke reads fail, the end tag exactly
      when they succeed with fewer than 4 bytes left; an emitted sample
      holds exactly the strokes read from `pos + 8`. */
  lemma ReadSampleErrors(data: seq<byte>, pos: nat, sampleSize: u16, tagCode: string)
    requires pos + 8 <= |data|
    ensures var r := ReadSample(data, pos, sampleSize, tagCode);
            var read := ReadStrokes(data, pos + 8, U16At(data, pos + 6));
            && (r == Err(InCoordinates) <==> read.Err?)
            && (r == Err(InEndTag) <==> read.Ok? && read.value.next + 4 > |data|)
            && (r.Ok? <==> read.Ok? && read.value.next + 4 <= |data|)
            && (r.Ok? ==> r.value.Emit? && read.Ok? && r.value.sample.strokes == read.value.strokes)
            && (r.Ok? ==> r.value.Emit? && r.value.warnings == SampleWarnings(data, pos, sampleSize, read.value.strokes))
  {
  }

  /** A short coordinate or end tag is raised only after a nonzero size, a
      decoded label and a stroke count, and then exactly as `ReadSample`
      raises it; an emitted record holds the strokes read from `pos + 8`. */
  lemma ReadRecordErrors(codecs: Codecs, data: seq<byte>, pos: nat)
    ensures var r := ReadRecord(codecs, data, pos);
            r == Err(InCoordinates) || r == Err(InEndTag) ==>
              pos + 8 <= |data| && U16At(data, pos) != 0 && LabelAt(codecs, data, pos).Label?
    ensures var r := ReadRecord(codecs, data, pos);
            pos + 8 <= |data| && U16At(data, pos) != 0 && LabelAt(codecs, data, pos).Label? ==>
              var read := ReadStrokes(data, pos + 8, U16At(data, pos + 6));
              && (r == Err(InCoordinates) <==> read.Err?)
              && (r == Err(InEndTag) <==> read.Ok? && read.value.next + 4 > |data|)
              && (r.Ok? <==> read.Ok? && read.value.next + 4 <= |data|)
              && (r.Ok? ==> r.value.Emit? && read.Ok? && r.value.sample.strokes == read.value.strokes)
              && (r.Ok? ==> r.value.Emit? && r.value.warnings == SampleWarnings(data, pos, U16At(data, pos), read.value.strokes))
  {
    if pos + 8 <= |data| && U16At(data, pos) != 0 && LabelAt(codecs, data, pos).Label? {
      ReadSampleErrors(data, pos, U16At(data, pos), LabelAt(codecs, data, pos).text);
    }
  }

  /** What one pass of the loop adds to the state gathered so far: a
      skipped entry adds its warning; an emitted sample is appended,
      recorded in `char_list` under its label, and adds its warnings. */
  function Absorb(acc: Parsed, step: Step): Parsed
  {
    match step
    case Stop => acc
    case Skip(tagField, reason, _) => acc.(warnings := acc.warnings + [SkippedEntry(tagField, reason)])
    case Emit(sample, warnings, _) =>
      Parsed(acc.samples + [sample], acc.charList[sample.tagCode := sample.strokes], acc.warnings + warnings)
  }

  /** Absorbing a well-formed sample keeps the samples well formed and
      `char_list` equal to their label map. */
  lemma EmitKeeps(acc: Parsed, sample: Sample, warnings: seq<Warning>, next: nat)
    requires sample.strokeNumber == |sample.strokes| && EndFree(sample.strokes)
    ensures var acc' := Absorb(acc, Emit(sample, warnings, next));
            && (acc.charList == LabelMap(acc.samples) ==> acc'.charList == LabelMap(acc'.samples))
            && (WellFormedSamples(acc.samples) ==> WellFormedSamples(acc'.samples))
  {
    var acc' := Absorb(acc, Emit(sample, warnings, next));
    assert acc'.samples[..|acc'.samples| - 1] == acc.samples;
  }

  /** The `while True` loop from the record starting at `pos`, with the
      samples, `char_list` and warnings gathered so far in `acc`. */
  function ReadLoop(codecs: Codecs, data: seq<byte>, pos: nat, acc: Parsed): (r: Result<Parsed>)
    ensures EndOfStream(data, pos) ==> r == Ok(acc)
    ensures r.Ok? ==> acc.samples <= r.value.samples && acc.warnings <= r.value.warnings
    ensures r.Ok? && WellFormedSamples(acc.samples) ==> WellFormedSamples(r.value.samples)
    ensures r.Ok? && acc.charList == LabelMap(acc.samples) ==> r.value.charList == LabelMap(r.value.samples)
    decreases |data| - pos
  {
    match ReadRecord(codecs, data, pos)
    case Err(t) => Err(t)
    case Ok(Stop) => Ok(acc)
    case Ok(Skip(tagField, reason, next)) =>
      ReadLoop(codecs, data, next, Absorb(acc, Skip(tagField, reason, next)))
    case Ok(Emit(sample, warnings, next)) =>
      var acc' := Absorb(acc, Emit(sample, warnings, next));
      EmitKeeps(acc, sample, warnings, next);
      ReadLoop(codecs, data, next, acc')
  }

  /** `read_pot_file` / `read_pot_zip_file` on the bytes of their source. */
  function ReadPot(codecs: Codecs, data: seq<byte>): (r: Result<Parsed>)
    ensures r.Ok? ==> WellFormedSamples(r.value.samples) && r.value.charList == LabelMap(r.value.samples)
    ensures EndOfStream(data, 0) ==> r == Ok(Parsed([], map[], []))
  {
    ReadLoop(codecs, data, 0, Parsed([], map[], []))
  }

  /** One pass of the loop body from `pos` computes `step`. */
  ghost predicate Yields(codecs: Codecs, data: seq<byte>, pos: nat, step: Step)
  {
    ReadRecord(codecs, data, pos) == Ok(step)
  }

  /** The loop, started at `pos`, passes through the records that yield
      `steps`, none of them a stop, and then stops. */
  ghost predicate Takes(codecs: Codecs, data: seq<byte>, pos: nat, steps: seq<Step>)
    decreases |steps|
  {
    if |steps| == 0 then EndOfStream(data, pos)
    else
      && !steps[0].Stop?
      && Yields(codecs, data, pos, steps[0])
      && Takes(codecs, data, steps[0].next, steps[1..])
  }

  /** The state after absorbing `steps` in order. */
  function AbsorbAll(acc: Parsed, steps: seq<Step>): Parsed
    decreases |steps|
  {
    if |steps| == 0 then acc else AbsorbAll(Absorb(acc, steps[0]), steps[1..])
  }

  /** The loop is a left fold of `Absorb` over the steps it takes. */
  lemma {:induction false} LoopTakes(codecs: Codecs, data: seq<byte>, pos: nat, steps: seq<Step>, acc: Parsed)
    requires Takes(codecs, data, pos, steps)
    ensures ReadLoop(codecs, data, pos, acc) == Ok(AbsorbAll(acc, steps))
    decreases |steps|
  {
    if |steps| != 0 {
      LoopTakes(codecs, data, steps[0].next, steps[1..], Absorb(acc, steps[0]));
    }
  }

  /** The record at `pos` is cut short in the field `t`. */
  ghost predicate Truncates(codecs: Codecs, data: seq<byte>, pos: nat, t: Truncated)
  {
    ReadRecord(codecs, data, pos) == Err(t)
  }

  /** The loop, started at `pos`, passes through the records that yield
      `steps`, none of them a stop, and then reaches a record whose read
      is cut short in the field `t`. */
  ghost predicate AbortsAfter(codecs: Codecs, data: seq<byte>, pos: nat, steps: seq<Step>, t: Truncated)
    decreases |steps|
  {
    if |steps| == 0 then Truncates(codecs, data, pos, t)
    else
      && !steps[0].Stop?
      && Yields(codecs, data, pos, steps[0])
      && AbortsAfter(codecs, data, steps[0].next, steps[1..], t)
  }

  /** A short read in any record the loop arrives at aborts the whole
      read: the samples gathered before it are lost with the exception. */
  lemma {:induction false} LoopAborts(codecs: Codecs, data: seq<byte>, pos: nat, steps: seq<Step>,
                                      acc: Parsed, t: Truncated)
    requires AbortsAfter(codecs, data, pos, steps, t)
    ensures ReadLoop(codecs, data, pos, acc) == Err(t)
    decreases |steps|
  {
    if |steps| != 0 {
      LoopAborts(codecs, data, steps[0].next, steps[1..], Absorb(acc, steps[0]), t);
    }
  }

  /** `read_pot_file` raises, and returns nothing, as soon as a record it
      arrives at is truncated. */
  lemma ReadPotAborts(codecs: Codecs, data: seq<byte>, steps: seq<Step>, t: Truncated)
    requires AbortsAfter(codecs, data, 0, steps, t)
    ensures ReadPot(codecs, data) == Err(t)
  {
    LoopAborts(codecs, data, 0, steps, Parsed([], map[], []), t);
  }

  /** `char_list` holds exactly the labels of the samples, each mapped to
      the strokes of the LAST sample carrying it. */
  lemma {:induction false} LabelMapLastWins(samples: seq<Sample>)
    ensures LabelMap(samples).Keys == set s | s in samples :: s.tagCode
    ensures forall i | 0 <= i < |samples| && (forall j | i < j < |samples| :: samples[j].tagCode != samples[i].tagCode) ::
              LabelMap(samples)[samples[i].tagCode] == samples[i].strokes
  {
    if |samples| != 0 {
      var init := samples[..|samples| - 1];
      LabelMapLastWins(init);
      assert samples == init + [samples[|samples| - 1]];
    }
  }

  /** Reading a stroke looks only at the bytes from `pos` on. */
  lemma {:induction false} ReadStrokeLocal(data: seq<byte>, data': seq<byte>, pos: nat)
    requires |data| == |data'|
    requires forall k | pos <= k < |data| :: data[k] == data'[k]
    ensures ReadStroke(data, pos) == ReadStroke(data', pos)
    decreases |data| - pos
  {
    if pos + 4 <= |data| {
      assert PointAt(data, pos) == PointAt(data', pos);
      ReadStrokeLocal(data, data', pos + 4);
    }
  }

  /** Reading a run of strokes looks only at the bytes from `pos` on. */
  lemma {:induction false} ReadStrokesLocal(data: seq<byte>, data': seq<byte>, pos: nat, n: nat)
    requires |data| == |data'|
    requires forall k | pos <= k < |data| :: data[k] == data'[k]
    ensures ReadStrokes(data, pos, n) == ReadStrokes(data', pos, n)
    decreases n
  {
    if n > 0 {
      ReadStrokeLocal(data, data', pos);
      match ReadStroke(data, pos)
      case Err(_) =>
      case Ok(first) => ReadStrokesLocal(data, data', first.next, n - 1);
    }
  }

  /** Equal suffixes agree byte by byte. */
  lemma SuffixAgrees(data: seq<byte>, data': seq<byte>, start: nat)
    requires |data| == |data'| && start <= |data| && data[start..] == data'[start..]
    ensures forall k | start <= k < |data| :: data[k] == data'[k]
  {
    forall k | start <= k < |data| ensures data[k] == data'[k] {
      assert data[k] == data[start..][k - start] && data'[k] == data'[start..][k - start];
    }
  }

  /** The body of a record looks only at the bytes after its tag field. */
  lemma ReadSampleLocal(data: seq<byte>, data': seq<byte>, pos: nat, sampleSize: u16, tagCode: string)
    requires |data| == |data'| && pos + 6 <= |data|
    requires data[pos + 6..] == data'[pos + 6..]
    ensures ReadSample(data, pos, sampleSize, tagCode) == ReadSample(data', pos, sampleSize, tagCode)
  {
    if pos + 8 <= |data| {
      SuffixAgrees(data, data', pos + 6);
      var n := U16At(data, pos + 6);
      assert n == U16At(data', pos + 6);
      ReadStrokesLocal(data, data', pos + 8, n);
      var read := ReadStrokes(data, pos + 8, n);
      if read.Ok? && read.value.next + 4 <= |data| {
        var q := read.value.next;
        assert PointAt(data, q) == PointAt(data', q);
      }
    }
  }

  /** The last two bytes of the tag field are consumed and never used: two
      streams that differ only there read to the same record, except for
      the raw tag field a skipped record reports. */
  lemma TagFieldTailIgnored(codecs: Codecs, data: seq<byte>, data': seq<byte>, pos: nat)
    requires |data| == |data'|
    requires forall k | 0 <= k < |data| && k != pos + 4 && k != pos + 5 :: data[k] == data'[k]
    ensures var r, r' := ReadRecord(codecs, data, pos), ReadRecord(codecs, data', pos);
            if r.Ok? && r.value.Skip?
            then r'.Ok? && r'.value.Skip? && r'.value.reason == r.value.reason && r'.value.next == r.value.next
            else r' == r
  {
    if pos + 6 <= |data| {
      assert data[pos + 6..] == data'[pos + 6..];
      assert U16At(data, pos) == U16At(data', pos);
      assert SwappedTagCode(data[pos + 2..pos + 6]) == SwappedTagCode(data'[pos + 2..pos + 6]);
      var decoded := LabelAt(codecs, data, pos);
      if decoded.Label? {
        ReadSampleLocal(data, data', pos, U16At(data, pos), decoded.text);
      }
    }
  }

  /** A record whose label does not decode is skipped by resuming 6 bytes
      after its start, so its stroke-count field is read as the next
      record's size: a stroke count of 0 ends the whole stream there. */
  lemma SkippedRecordRereadsStrokeCount(codecs: Codecs, data: seq<byte>, pos: nat, acc: Parsed)
    requires pos + 8 <= |data| && U16At(data, pos) != 0
    requires LabelAt(codecs, data, pos).Failure?
    requires U16At(data, pos + 6) == 0
    ensures ReadLoop(codecs, data, pos, acc) ==
              Ok(acc.(warnings := acc.warnings + [SkippedEntry(data[pos + 2..pos + 6], LabelAt(codecs, data, pos).reason)]))
  {
  }
}
