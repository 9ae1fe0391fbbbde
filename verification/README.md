# POT handwriting-sample reader, modelled in Dafny

This project models `read_pot.py`, which reads CASIA "POT" files of online
handwriting samples. A POT stream is a run of records, one per character
sample. Each record holds:

- a little-endian unsigned 16-bit sample size;
- a 4-byte tag field;
- an unsigned 16-bit stroke count;
- for each stroke, a run of signed 16-bit `(x, y)` points ended by the
  stroke-end point `(-1, 0)`;
- a character end tag that should be `(-1, -1)`;
- padding up to the declared sample size.

The label comes from the first two tag bytes, swapped. `decode_tag_code`
strips their null bytes and then tries GB2312, then GBK.

`read_pot_file` and `read_pot_zip_file` run the same loop, one over a file
and one over an archive member. Both are modelled once, as a pure parser over
the bytes of their source:

- `LittleEndian` (`le_bytes.dfy`): the `<H` and `<h` fields and their
  encoders.
- `TagCode` (`tag_code.dfy`): `decode_tag_code`. The two code tables are
  partial functions held in a `Codecs` value.
- `PotReader` (`pot_reader.dfy`): the reader as recursive functions over a
  cursor. It gives a `Result` that is either the samples, `char_list` and the
  warnings the reader prints, or the field whose short read raised
  `ValueError`.
- `PotStream` (`pot_stream.dfy`): the reader as the source writes it, with
  nested loops and one moving cursor. Each method is proved equal to the
  recursive definition.
- `PotEncoding` (`pot_encoding.dfy`): an encoder from raw records to bytes.
  It is the reader's partner: the reader inverts it, and every record the
  reader emits whose padding ends inside the stream is the encoding of the
  raw record made of the bytes it consumed.

Two behaviours are modelled as the code has them:

- **Failed label.** When the label fails to decode, the loop resumes right
  after the tag field. The stroke count is then read as the next record's
  size: a count of 0 ends the stream, and any other count makes the reader
  out of step with the records.
- **Negative remainder.** When `sample_size - bytes_read - 4` is negative,
  the reader only warns. It never seeks backward.

For a record with one stroke of two points, `bytes_read` is
2 + 4 + 2 + 4 + 8 = 20, so the record ends after 24 bytes: a size of 24
leaves nothing to skip, and a size of 26 makes the reader skip 2 bytes of
padding after the end tag. The worked example uses a size of 24.

## Model

| member | source | states |
|---|---|---|
| LittleEndian.U16RoundTrip | read_pot.py:36 | the `<H` value read from the encoding of `v` is `v` |
| LittleEndian.U16Complete | read_pot.py:36 | every two bytes are the encoding of the `<H` value read from them, so the reader and encoder agree on all inputs |
| LittleEndian.I16RoundTrip | read_pot.py:69 | the two's-complement `<h` value read from the encoding of `v` is `v`, negative values included |
| LittleEndian.I16Complete | read_pot.py:69 | every two bytes are the encoding of the `<h` value read from them |
| TagCode.StripNulls | read_pot.py:7 | the stripped code has no null byte, and it is empty exactly when every input byte was null |
| TagCode.StripNullsContents | read_pot.py:7 | stripping keeps every non-null byte as often as it occurs and drops all nulls |
| TagCode.StripNullsConcat | read_pot.py:7 | stripping distributes over concatenation, so the non-null bytes keep their order |
| TagCode.StripNullsIdentity | read_pot.py:7 | stripping leaves a code unchanged exactly when it has no null byte |
| TagCode.DecodeTagCode | read_pot.py:4-24 | failure for an all-null code exactly; GB2312's reading of the stripped code when it has one; otherwise GBK's reading when it has one; an undecodable failure, carrying the stripped code, exactly when the stripped code is non-empty and both codecs reject it |
| TagCode.NullPaddingIgnored | read_pot.py:7-11 | a null byte before or after a non-null byte does not change the label |
| PotReader.ReadStroke | read_pot.py:64-74 | a stroke read fails only with a short coordinate, returns no stroke-end point, and stops 4 bytes past its last point |
| PotReader.ReadStrokeSpec | read_pot.py:65-74 | a stroke read fails exactly when no 4-byte slot from the cursor holds `(-1, 0)`; otherwise the points are the slots before the first one, in order |
| PotReader.ReadStrokes | read_pot.py:62-75 | `n` strokes are read, none holding the stroke end, and the cursor advances by 4 bytes per stroke plus 4 per point |
| PotReader.ReadSample | read_pot.py:57-107 | a short stroke count is fatal exactly when fewer than 8 bytes remain; an emitted sample has `stroke_number == len(strokes)`; it warns of the end tag exactly when that is not `(-1, -1)` and of the size exactly when the remainder is negative; the next record starts at `pos + max(sample_size, bytes_read + 4)`; when the sample is emitted and its exact warning list are stated by `ReadSampleErrors` |
| PotReader.ReadRecord | read_pot.py:33-107 | a normal stop exactly at a short size or a size of 0; a fatal tag read exactly when under 6 bytes remain; a skip exactly when the label fails, resuming 6 bytes after the record start; every non-stop step moves the cursor forward |
| PotReader.ReadSampleErrors | read_pot.py:62-98 | with the stroke count read, a short coordinate is fatal exactly when the stroke reads from `pos + 8` fail, and a short end tag exactly when they succeed with fewer than 4 bytes left; the sample is emitted exactly when they succeed with the end tag inside the stream; an emitted sample holds exactly those strokes, and its warnings are exactly the printed ones in order: one for an end tag other than (-1, -1), then one when the size is short of the bytes read |
| PotReader.ReadRecordErrors | read_pot.py:33-98 | a short coordinate or end tag arises only after a nonzero size, a decoded label and a stroke count, and then exactly as `ReadSampleErrors` states; after such a header the record is emitted exactly when the strokes read and the end tag fits, holding the strokes read from `pos + 8` and exactly the warnings `ReadSampleErrors` lists |
| PotReader.ReadLoop | read_pot.py:31-109 | the loop stops with the state so far at the end of the stream; it only appends samples and warnings; it keeps samples well formed and `char_list` equal to the last-wins label map |
| PotReader.ReadPot | read_pot.py:27-109 | a successful read gives well-formed samples and the `char_list` they define; a stream with no first record reads to nothing |
| PotReader.LoopTakes | read_pot.py:31-109 | the loop result is the left fold of one loop pass over the steps it takes |
| PotReader.LoopAborts | read_pot.py:44-83 | a truncated record anywhere the loop arrives, the first one included, aborts the whole loop with that record's error, whatever was gathered before |
| PotReader.ReadPotAborts | read_pot.py:27-109 | a read that arrives at a truncated record, the first one included, raises, returning no samples |
| PotReader.LabelMapLastWins | read_pot.py:98-100 | the `char_list` keys are exactly the sample labels, and each maps to the strokes of the last sample carrying it |
| PotReader.TagFieldTailIgnored | read_pot.py:43-54 | changing tag bytes 2 and 3 never changes the record read, apart from the raw field a skip reports |
| PotReader.SkippedRecordRereadsStrokeCount | read_pot.py:52-54 | after a failed label, the stroke count is read as the next size; a count of 0 ends the stream with only the skip warning added |
| PotStream.ReadPoints | read_pot.py:64-74 | the sentinel loop computes exactly `ReadStroke` |
| PotStream.ReadStrokeList | read_pot.py:62-75 | the counted loop computes exactly `ReadStrokes` |
| PotStream.ReadSampleAt | read_pot.py:57-107 | the record body, written with a moving cursor, computes exactly `ReadSample` |
| PotStream.ReadRecordAt | read_pot.py:33-107 | one loop pass, written with a moving cursor, computes exactly `ReadRecord` |
| PotStream.ReadPotStream | read_pot.py:31-107 | the `while True` loop of `read_pot_file`, which `read_pot_zip_file` repeats line for line, computes exactly `ReadPot` |
| PotEncoding.StrokeRoundTrip | read_pot.py:64-74 | reading an encoded stroke without the stroke end yields its points and stops right after its sentinel |
| PotEncoding.StrokeComplete | read_pot.py:64-74 | the bytes a successful stroke read consumed are the encoding of the points it returned |
| PotEncoding.StrokesRoundTrip | read_pot.py:62-75 | reading encoded strokes yields them and stops right after the last one |
| PotEncoding.StrokesComplete | read_pot.py:62-75 | the bytes a successful stroke-list read consumed are the encoding of the strokes it returned |
| PotEncoding.RecordRoundTrip | read_pot.py:33-107 | an emittable record's encoding emits its sample and its warnings, and the next record starts right after its padding |
| PotEncoding.RecordComplete | read_pot.py:33-107 | every record the reader emits, with its padding inside the stream, is the encoding of an emittable raw record that stands for the emitted sample and warnings |
| PotEncoding.ReadPotRoundTrip | read_pot.py:27-109 | emittable records ended by end of file or a size of 0 read back to exactly their samples, their last-wins label map and their warnings |
| PotEncoding.WorkedExample | read_pot.py:27-109 | a 24-byte record with one two-point stroke and the GB2312 code B0A1 reads to one sample holding exactly those points, under that label, with no warning |

## Left out

- File and archive I/O (`open`, `zipfile`, the `with` blocks, read_pot.py:30, 114-115): the source is the byte sequence they deliver. A seek past the end makes the next read short, which the model treats as the normal end of the stream.
- The GB2312 and GBK code tables: foreign codec calls. They are partial functions supplied by the caller. A decoded label is a string, as `bytes.decode` returns one.
- The console output of the `print` calls (read_pot.py:10, 21, 53, 88, 107): each becomes a `Warning` value, in order. The two prints for one failed label become a single `SkippedEntry` warning that carries the tag field and the reason. The exception message text is not modelled, only which field was short.
- The `__main__` driver (read_pot.py:197-211): a hard-coded path and console output.
- The zip loop as separate code (read_pot.py:116-192): it matches the file loop line for line, so `ReadPot` and `PotStream.ReadPotStream` model both.
- A `ValueError` discards everything read so far, as in the source, where the exception leaves the function before it returns. The model returns only the failing field.
- The key order of `char_list`: a Python dict keeps the order in which each label was first inserted, and the model's `map` has no order. Only its keys and values are modelled.
- PotEncoding.RecordComplete: covers only records whose padding ends inside the stream. A seek past the end is a normal stop that the encoder's round trip does not describe.
