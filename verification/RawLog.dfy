/** Raw server logs kept as bytes with a record per line: `retain_raw_log_records` and
    `retain_raw_log_capture` of `stage2_protocol.py`, and the contracts of `stage2_contracts.py`. */
module RawLog {
  import opened Prelude
  import opened Sse

  type Encoder = string -> Bytes

  datatype RawLogRecord = RawLogRecord(stream: string, ordinal: nat, byteStart: nat, byteEnd: nat, at: Nanos,
    line: string)
  datatype RawLogCapture = RawLogCapture(stream: string, exact: Bytes, byteCount: nat, records: seq<RawLogRecord>)

  // ---------------------------------------------------------------- the contracts

  predicate RecordIsValid(encode: Encoder, r: RawLogRecord) {
    IsIdentifier(r.stream) && r.byteEnd > r.byteStart && r.byteEnd - r.byteStart == |encode(r.line)|
  }

  /** The encoded lines with a newline between neighbours. */
  function Join(encode: Encoder, lines: seq<string>): Bytes {
    if lines == [] then []
    else if |lines| == 1 then encode(lines[0])
    else encode(lines[0]) + ([LF] + Join(encode, lines[1..]))
  }

  function LinesOf(records: seq<RawLogRecord>): seq<string> {
    seq(|records|, i requires 0 <= i < |records| => records[i].line)
  }

  /** Each record is of the stream, numbered by its place, and as long as its line. */
  predicate RecordsFit(encode: Encoder, stream: string, records: seq<RawLogRecord>) {
    forall i :: 0 <= i < |records|
      ==> RecordIsValid(encode, records[i]) && records[i].stream == stream && records[i].ordinal == i
  }

  /** The first record starts at zero, and each other one byte behind the record before it. */
  predicate RecordsAbut(records: seq<RawLogRecord>) {
    forall i :: 0 <= i < |records| ==> records[i].byteStart == if i == 0 then 0 else records[i - 1].byteEnd + 1
  }

  predicate CaptureIsValid(encode: Encoder, c: RawLogCapture) {
    && IsIdentifier(c.stream) && c.records != []
    && RecordsFit(encode, c.stream, c.records)
    && |c.exact| == c.byteCount
    && c.exact == Join(encode, LinesOf(c.records))
    && RecordsAbut(c.records)
    && c.records[|c.records| - 1].byteEnd == |c.exact|
  }

  // ---------------------------------------------------------------- the producers

  /** A line that takes up at least one byte; a record of no bytes is refused. */
  predicate Visible(encode: Encoder, line: string) {
    |encode(line)| > 0
  }

  /** Where line `i` starts when every earlier line is followed by one newline. */
  function StartOf(encode: Encoder, lines: seq<string>, i: nat): nat
    requires i <= |lines|
  {
    if i == 0 then 0 else StartOf(encode, lines, i - 1) + |encode(lines[i - 1])| + 1
  }

  predicate OffsetsFit(lines: seq<string>, offsets: Option<seq<Nanos>>) {
    offsets.Some? ==>
      && |offsets.value| == |lines|
      && forall i :: 0 < i < |lines| ==> offsets.value[i - 1] <= offsets.value[i]
  }

  function ReadingAt(first: Nanos, offsets: Option<seq<Nanos>>, i: nat): Nanos
    requires offsets.Some? ==> i < |offsets.value|
  {
    if offsets.Some? then offsets.value[i] else first + i
  }

  function RecordAt(
    encode: Encoder, lines: seq<string>, stream: string, first: Nanos, offsets: Option<seq<Nanos>>,
    i: nat): RawLogRecord
    requires i < |lines| && OffsetsFit(lines, offsets)
  {
    var start := StartOf(encode, lines, i);
    RawLogRecord(stream, i, start, start + |encode(lines[i])|, ReadingAt(first, offsets, i), lines[i])
  }

  /** Each line can be a record of the stream: the stream can be named, and the line is visible. */
  predicate Retainable(encode: Encoder, lines: seq<string>, stream: string) {
    forall i :: 0 <= i < |lines| ==> Visible(encode, lines[i]) && IsIdentifier(stream)
  }

  /** Succeeds exactly when the offsets fit and every line can be a record. */
  method RetainRawLogRecords(
    encode: Encoder, lines: seq<string>, stream: string, first: Nanos, offsets: Option<seq<Nanos>>)
    returns (r: Result<seq<RawLogRecord>>)
    ensures r.Returned? <==> OffsetsFit(lines, offsets) && Retainable(encode, lines, stream)
    ensures r.Returned?
            <==> && (offsets.Some? ==> |offsets.value| == |lines|)
                 && (offsets.Some? ==> forall i :: 0 < i < |lines| ==> offsets.value[i - 1] <= offsets.value[i])
                 && forall i :: 0 <= i < |lines| ==> |encode(lines[i])| >= 1 && 1 <= |stream| <= 160
    ensures r.Returned? ==> AreRetained(encode, lines, stream, first, offsets, r.value) && |r.value| == |lines|
    ensures r.Returned? ==>
              forall i :: 0 <= i < |lines| ==>
                && r.value[i].line == lines[i] && r.value[i].stream == stream && r.value[i].ordinal == i
                && r.value[i].at == (if offsets.Some? then offsets.value[i] else first + i)
                && r.value[i].byteStart == (if i == 0 then 0 else r.value[i - 1].byteEnd + 1)
                && r.value[i].byteEnd == r.value[i].byteStart + |encode(lines[i])|
  {
    if !OffsetsFit(lines, offsets) {
      return Raised;
    }
    var records: seq<RawLogRecord> := [];
    var byteOffset := 0;
    for ordinal := 0 to |lines|
      invariant byteOffset == StartOf(encode, lines, ordinal) && |records| == ordinal
      invariant forall i :: 0 <= i < ordinal ==> Visible(encode, lines[i]) && IsIdentifier(stream)
      invariant forall i :: 0 <= i < ordinal ==> records[i] == RecordAt(encode, lines, stream, first, offsets, i)
    {
      var encoded := encode(lines[ordinal]);
      var record := RawLogRecord(stream, ordinal, byteOffset, byteOffset + |encoded|,
                                 ReadingAt(first, offsets, ordinal), lines[ordinal]);
      if !RecordIsValid(encode, record) {
        return Raised;
      }
      records := records + [record];
      byteOffset := byteOffset + |encoded| + 1;
    }
    RetainedAreStamped(encode, lines, stream, first, offsets, records);
    return Returned(records);
  }

  /** The capture is accepted by its own contract exactly when there is a line and the records are
      retained. */
  method RetainRawLogCapture(
    encode: Encoder, lines: seq<string>, stream: string, first: Nanos, offsets: Option<seq<Nanos>>)
    returns (r: Result<RawLogCapture>)
    ensures r.Returned? <==> lines != [] && OffsetsFit(lines, offsets) && Retainable(encode, lines, stream)
    ensures r.Returned? ==> CaptureIsValid(encode, r.value) && r.value.stream == stream
                            && LinesOf(r.value.records) == lines
  {
    var records := RetainRawLogRecords(encode, lines, stream, first, offsets);
    if records.Raised? {
      return Raised;
    }
    var exact := Join(encode, lines);
    var capture := RawLogCapture(stream, exact, |exact|, records.value);
    RetainedIsValid(encode, lines, stream, first, offsets, capture);
    if !CaptureIsValid(encode, capture) {
      return Raised;
    }
    return Returned(capture);
  }

  /** Record by record what `RetainRawLogRecords` builds. */
  predicate AreRetained(
    encode: Encoder, lines: seq<string>, stream: string, first: Nanos, offsets: Option<seq<Nanos>>,
    records: seq<RawLogRecord>)
    requires OffsetsFit(lines, offsets)
  {
    && |records| == |lines|
    && forall i :: 0 <= i < |records| ==> records[i] == RecordAt(encode, lines, stream, first, offsets, i)
  }

  lemma RetainedAreStamped(
    encode: Encoder, lines: seq<string>, stream: string, first: Nanos, offsets: Option<seq<Nanos>>,
    records: seq<RawLogRecord>)
    requires OffsetsFit(lines, offsets) && AreRetained(encode, lines, stream, first, offsets, records)
    ensures forall i :: 0 <= i < |lines| ==>
              && records[i].line == lines[i] && records[i].stream == stream && records[i].ordinal == i
              && records[i].at == (if offsets.Some? then offsets.value[i] else first + i)
              && records[i].byteStart == (if i == 0 then 0 else records[i - 1].byteEnd + 1)
              && records[i].byteEnd == records[i].byteStart + |encode(lines[i])|
  {
    forall i | 0 <= i < |lines|
      ensures && records[i].line == lines[i] && records[i].stream == stream && records[i].ordinal == i
              && records[i].at == (if offsets.Some? then offsets.value[i] else first + i)
              && records[i].byteStart == (if i == 0 then 0 else records[i - 1].byteEnd + 1)
              && records[i].byteEnd == records[i].byteStart + |encode(lines[i])|
    {
      assert records[i] == RecordAt(encode, lines, stream, first, offsets, i);
      assert i > 0 ==> records[i - 1] == RecordAt(encode, lines, stream, first, offsets, i - 1);
    }
  }

  lemma RetainedRecordsFit(
    encode: Encoder, lines: seq<string>, stream: string, first: Nanos, offsets: Option<seq<Nanos>>,
    records: seq<RawLogRecord>)
    requires OffsetsFit(lines, offsets) && AreRetained(encode, lines, stream, first, offsets, records)
    requires Retainable(encode, lines, stream)
    ensures RecordsFit(encode, stream, records)
  {
    forall i | 0 <= i < |records|
      ensures RecordIsValid(encode, records[i]) && records[i].stream == stream && records[i].ordinal == i
    {
      assert records[i] == RecordAt(encode, lines, stream, first, offsets, i);
      assert Visible(encode, lines[i]);
    }
  }

  lemma RetainedRecordsAbut(
    encode: Encoder, lines: seq<string>, stream: string, first: Nanos, offsets: Option<seq<Nanos>>,
    records: seq<RawLogRecord>)
    requires OffsetsFit(lines, offsets) && AreRetained(encode, lines, stream, first, offsets, records)
    ensures RecordsAbut(records)
  {
    forall i | 0 <= i < |records| ensures records[i].byteStart == if i == 0 then 0 else records[i - 1].byteEnd + 1 {
      assert records[i] == RecordAt(encode, lines, stream, first, offsets, i);
      assert i > 0 ==> records[i - 1] == RecordAt(encode, lines, stream, first, offsets, i - 1);
    }
  }

  lemma RetainedIsValid(
    encode: Encoder, lines: seq<string>, stream: string, first: Nanos, offsets: Option<seq<Nanos>>, c: RawLogCapture)
    requires OffsetsFit(lines, offsets) && AreRetained(encode, lines, stream, first, offsets, c.records)
    requires Retainable(encode, lines, stream)
    requires c.stream == stream && c.exact == Join(encode, lines) && c.byteCount == |c.exact|
    ensures LinesOf(c.records) == lines
    ensures CaptureIsValid(encode, c) <==> lines != []
  {
    RetainedRecordsFit(encode, lines, stream, first, offsets, c.records);
    RetainedRecordsAbut(encode, lines, stream, first, offsets, c.records);
    RetainedLines(encode, lines, stream, first, offsets, c.records);
    RetainedEnd(encode, lines, stream, first, offsets, c.records);
  }

  lemma RetainedLines(
    encode: Encoder, lines: seq<string>, stream: string, first: Nanos, offsets: Option<seq<Nanos>>,
    records: seq<RawLogRecord>)
    requires OffsetsFit(lines, offsets) && AreRetained(encode, lines, stream, first, offsets, records)
    ensures LinesOf(records) == lines
  {
    assert |LinesOf(records)| == |lines|;
    forall i | 0 <= i < |lines| ensures LinesOf(records)[i] == lines[i] {
      assert records[i] == RecordAt(encode, lines, stream, first, offsets, i);
    }
  }

  lemma RetainedEnd(
    encode: Encoder, lines: seq<string>, stream: string, first: Nanos, offsets: Option<seq<Nanos>>,
    records: seq<RawLogRecord>)
    requires OffsetsFit(lines, offsets) && AreRetained(encode, lines, stream, first, offsets, records)
    ensures |records| == |lines|
    ensures lines != [] ==> records[|records| - 1].byteEnd == |Join(encode, lines)|
  {
    if lines != [] {
      LastLineEndsAll(encode, lines);
      assert records[|records| - 1] == RecordAt(encode, lines, stream, first, offsets, |records| - 1);
    }
  }

  lemma LastLineEndsAll(encode: Encoder, lines: seq<string>)
    requires lines != []
    ensures |Join(encode, lines)| == StartOf(encode, lines, |lines| - 1) + |encode(lines[|lines| - 1])|
  {
    SplitAtLine(encode, lines, |lines| - 1);
    assert lines[|lines| - 1..] == [lines[|lines| - 1]];
  }

  // ---------------------------------------------------------------- tiling

  /** The first `i` lines with the newline behind each. */
  function Before(encode: Encoder, lines: seq<string>, i: nat): Bytes
    requires i <= |lines|
  {
    if i == 0 then [] else Before(encode, lines, i - 1) + (encode(lines[i - 1]) + [LF])
  }

  lemma {:induction false} SplitAtLine(encode: Encoder, lines: seq<string>, i: nat)
    requires i < |lines|
    ensures Join(encode, lines) == Before(encode, lines, i) + Join(encode, lines[i..])
    ensures |Before(encode, lines, i)| == StartOf(encode, lines, i)
  {
    if i == 0 {
      assert lines[0..] == lines;
    } else {
      SplitAtLine(encode, lines, i - 1);
      var rest := lines[i - 1..];
      assert rest[1..] == lines[i..] && rest[0] == lines[i - 1];
      var b, line, tail := Before(encode, lines, i - 1), encode(lines[i - 1]), Join(encode, lines[i..]);
      ConcatAssociates(line, [LF], tail);
      ConcatAssociates(b, line + [LF], tail);
    }
  }

  lemma SliceInside<T>(a: seq<T>, b: seq<T>, c: seq<T>)
    ensures (a + (b + c))[|a|..|a| + |b|] == b
    ensures c != [] ==> (a + (b + c))[|a| + |b|] == c[0]
  {
  }

  /** The line at `i` and the byte behind it, in the joined bytes. */
  lemma LineInJoin(encode: Encoder, lines: seq<string>, i: nat)
    requires i < |lines|
    ensures var start, end, all :=
            StartOf(encode, lines, i), StartOf(encode, lines, i) + |encode(lines[i])|, Join(encode, lines);
            && end <= |all| && all[start..end] == encode(lines[i])
            && if i + 1 < |lines| then end < |all| && all[end] == LF else end == |all|
  {
    SplitAtLine(encode, lines, i);
    var tail := if i + 1 == |lines| then [] else [LF] + Join(encode, lines[i..][1..]);
    assert Join(encode, lines[i..]) == encode(lines[i]) + tail by {
      ConcatNothing(encode(lines[i]));
    }
    SliceInside(Before(encode, lines, i), encode(lines[i]), tail);
  }

  /** A record spans its line in the bytes, and behind it come a newline or the end. */
  predicate Spans(all: Bytes, r: RawLogRecord, line: Bytes, last: bool) {
    && r.byteStart <= r.byteEnd <= |all| && all[r.byteStart..r.byteEnd] == line
    && if last then r.byteEnd == |all| else r.byteEnd < |all| && all[r.byteEnd] == LF
  }

  /** A capture that meets its contract tiles its bytes: each record starts where the lines before it
      and their newlines end, its slice is its line, and one newline parts it from the next. */
  lemma ValidCapturesTile(encode: Encoder, c: RawLogCapture, i: nat)
    requires CaptureIsValid(encode, c) && i < |c.records|
    ensures c.records[i].byteStart == StartOf(encode, LinesOf(c.records), i)
    ensures Spans(c.exact, c.records[i], encode(c.records[i].line), i + 1 == |c.records|)
  {
    RecordSpansItsLine(encode, c, i);
    LineSpans(encode, LinesOf(c.records), c.records[i], i);
  }

  lemma LineSpans(encode: Encoder, lines: seq<string>, r: RawLogRecord, i: nat)
    requires i < |lines| && r.line == lines[i]
    requires r.byteStart == StartOf(encode, lines, i) && r.byteEnd == r.byteStart + |encode(r.line)|
    ensures Spans(Join(encode, lines), r, encode(r.line), i + 1 == |lines|)
  {
    LineInJoin(encode, lines, i);
  }

  lemma RecordSpansItsLine(encode: Encoder, c: RawLogCapture, i: nat)
    requires CaptureIsValid(encode, c) && i < |c.records|
    ensures c.records[i].byteStart == StartOf(encode, LinesOf(c.records), i)
    ensures c.records[i].byteEnd == c.records[i].byteStart + |encode(c.records[i].line)|
  {
    StartsAreForced(encode, c, i);
    assert RecordIsValid(encode, c.records[i]);
  }

  lemma {:induction false} StartsAreForced(encode: Encoder, c: RawLogCapture, i: nat)
    requires CaptureIsValid(encode, c) && i < |c.records|
    ensures c.records[i].byteStart == StartOf(encode, LinesOf(c.records), i)
  {
    if i == 0 {
      assert c.records[0].byteStart == 0;
    } else {
      StartsAreForced(encode, c, i - 1);
      NextStart(encode, LinesOf(c.records), c.records, i);
    }
  }

  lemma NextStart(encode: Encoder, lines: seq<string>, records: seq<RawLogRecord>, i: nat)
    requires 0 < i < |records| && |lines| == |records| && RecordsAbut(records)
    requires RecordIsValid(encode, records[i - 1]) && records[i - 1].line == lines[i - 1]
    requires records[i - 1].byteStart == StartOf(encode, lines, i - 1)
    ensures records[i].byteStart == StartOf(encode, lines, i)
  {
    assert records[i].byteStart == records[i - 1].byteEnd + 1;
    assert StartOf(encode, lines, i) == StartOf(encode, lines, i - 1) + |encode(lines[i - 1])| + 1;
  }

  /** Nothing of a valid capture is free but the lines, the stream and the clock readings: two valid
      captures of the same lines, stream and readings are the same. */
  lemma ValidCapturesAreDetermined(encode: Encoder, a: RawLogCapture, b: RawLogCapture)
    requires CaptureIsValid(encode, a) && CaptureIsValid(encode, b)
    requires a.stream == b.stream && LinesOf(a.records) == LinesOf(b.records)
    requires forall i :: 0 <= i < |a.records| && i < |b.records| ==> a.records[i].at == b.records[i].at
    ensures a == b
  {
    assert |LinesOf(a.records)| == |a.records| && |LinesOf(b.records)| == |b.records|;
    forall i | 0 <= i < |a.records| ensures a.records[i] == b.records[i] {
      StartsAreForced(encode, a, i);
      StartsAreForced(encode, b, i);
      assert LinesOf(a.records)[i] == LinesOf(b.records)[i];
      assert RecordIsValid(encode, a.records[i]) && RecordIsValid(encode, b.records[i]);
    }
  }
}
