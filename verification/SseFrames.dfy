/** What a sender writes and what the parser makes of it: frames rendered line by line read back as
    themselves, and a stream of frames comes out whole however it is cut into chunks. */
module SseFrames {
  import opened Prelude
  import opened Sse
  import opened SseChunking
  import opened Ascii

  // ---------------------------------------------------------------- one frame

  /** One line of a frame, as a sender means it and as it spells it: a comment behind any number of
      blanks, data with or without the blank, or the bare word. */
  datatype Field = CommentField(blanks: nat, text: string) | DataField(blank: bool, text: string) | BareDataField {
    function Text(): string {
      if BareDataField? then "" else text
    }
  }

  /** A field that one line can carry: no line ending, and no blank in front of the text where the parser
      drops it. */
  predicate IsField(f: Field) {
    && '\n' !in f.Text() && '\r' !in f.Text()
    && (f.CommentField? || (f.DataField? && !f.blank) ==> !(" " <= f.text))
  }

  function Blanks(n: nat): (blanks: string)
    ensures forall c :: c in blanks ==> c == ' '
  {
    if n == 0 then "" else " " + Blanks(n - 1)
  }

  function RenderField(f: Field): string {
    match f
    case CommentField(blanks, text) => ":" + (Blanks(blanks) + text)
    case DataField(blank, text) => "data:" + (if blank then " " + text else text)
    case BareDataField => "data"
  }

  function RenderFields(fields: seq<Field>): seq<string> {
    if fields == [] then [] else [RenderField(fields[0])] + RenderFields(fields[1..])
  }

  function DataTexts(fields: seq<Field>): seq<string> {
    if fields == [] then []
    else (if fields[0].CommentField? then [] else [fields[0].Text()]) + DataTexts(fields[1..])
  }

  function CommentTexts(fields: seq<Field>): seq<string> {
    if fields == [] then [] else (if fields[0].CommentField? then [fields[0].text] else []) + CommentTexts(fields[1..])
  }

  /** The frame meant, and the `[DONE]` flag behind it; no data may follow `[DONE]`. */
  function Meant(fields: seq<Field>, done: bool): Result<(SSEFrame, bool)> {
    var data := DataTexts(fields);
    if data == [] then Returned((SSEFrame(Comment, None, CommentTexts(fields)), done))
    else if done then Raised
    else
      var last := JoinLines(data) == "[DONE]";
      Returned((SSEFrame(if last then FrameKind.Done else Data, Some(JoinLines(data)), CommentTexts(fields)), last))
  }

  lemma FieldReadsBack(f: Field)
    requires IsField(f)
    ensures ReadLine(RenderField(f)) == if f.CommentField? then CommentLine(f.text) else DataLine(f.Text())
    ensures '\n' !in RenderField(f) && '\r' !in RenderField(f)
  {
    var line := RenderField(f);
    match f
    case CommentField(blanks, text) =>
      assert line[0] == ':' && ":" <= line && line[1..] == Blanks(blanks) + text;
      BlanksAreStripped(blanks, text);
    case DataField(blank, text) =>
      assert line[0] == 'd' && line != "data" && line[..5] == "data:";
      assert line[5..] == if blank then " " + text else text;
      assert (" " + text)[1..] == text;
    case BareDataField =>
      assert line[0] == 'd';
  }

  lemma {:induction false} BlanksAreStripped(n: nat, text: string)
    requires !(" " <= text)
    ensures StripLeadingSpaces(Blanks(n) + text) == text
  {
    if n == 0 {
      assert Blanks(0) + text == text && (text == "" || text[0] != ' ');
    } else {
      BlanksAreStripped(n - 1, text);
      assert Blanks(n) + text == " " + (Blanks(n - 1) + text);
      assert (Blanks(n) + text)[1..] == Blanks(n - 1) + text;
    }
  }

  lemma {:induction false} LinesSplitBack(head: string, rest: string)
    requires '\n' !in head
    ensures SplitLines(head + "\n" + rest) == [head] + SplitLines(rest)
  {
    var all := head + "\n" + rest;
    if head == "" {
      assert all[1..] == rest && all[0] == '\n';
    } else {
      assert all[0] == head[0] && all[1..] == head[1..] + "\n" + rest;
      assert head[0] in head;
      LinesSplitBack(head[1..], rest);
      assert [head[0]] + head[1..] == head;
    }
  }

  lemma {:induction false} LineSplitsAlone(line: string)
    requires '\n' !in line
    ensures SplitLines(line) == [line]
  {
    if line != "" {
      LineSplitsAlone(line[1..]);
      assert line[0] in line;
      assert [line[0]] + line[1..] == line;
    }
  }

  /** Joining lines and splitting them again undo each other. */
  lemma {:induction false} SplitUndoesJoin(lines: seq<string>)
    requires lines != [] && forall i :: 0 <= i < |lines| ==> '\n' !in lines[i]
    ensures SplitLines(JoinLines(lines)) == lines
  {
    if |lines| == 1 {
      LineSplitsAlone(lines[0]);
    } else {
      SplitUndoesJoin(lines[1..]);
      LinesSplitBack(lines[0], JoinLines(lines[1..]));
      assert [lines[0]] + lines[1..] == lines;
    }
  }

  lemma {:induction false} RenderedLines(fields: seq<Field>)
    requires forall i :: 0 <= i < |fields| ==> IsField(fields[i])
    ensures |RenderFields(fields)| == |fields|
    ensures forall i :: 0 <= i < |fields| ==> RenderFields(fields)[i] == RenderField(fields[i])
  {
    if fields != [] {
      RenderedLines(fields[1..]);
    }
  }

  lemma {:induction false} NoReturnInJoin(lines: seq<string>)
    requires forall i :: 0 <= i < |lines| ==> '\r' !in lines[i]
    ensures '\r' !in JoinLines(lines)
  {
    if |lines| > 1 {
      NoReturnInJoin(lines[1..]);
    }
  }

  lemma {:induction false} DataOfCons(line: string, lines: seq<string>)
    ensures DataOf([line] + lines) == (match ReadLine(line) case DataLine(text) => [text] case _ => []) + DataOf(lines)
    ensures CommentsOf([line] + lines)
            == (match ReadLine(line) case CommentLine(text) => [text] case _ => []) + CommentsOf(lines)
  {
    var all := [line] + lines;
    if lines == [] {
      assert all[..0] == [];
    } else {
      assert all[..|all| - 1] == [line] + lines[..|lines| - 1];
      DataOfCons(line, lines[..|lines| - 1]);
    }
  }

  lemma {:induction false} FieldsReadBack(fields: seq<Field>)
    requires forall i :: 0 <= i < |fields| ==> IsField(fields[i])
    ensures DataOf(RenderFields(fields)) == DataTexts(fields)
            && CommentsOf(RenderFields(fields)) == CommentTexts(fields)
  {
    if fields != [] {
      FieldsReadBack(fields[1..]);
      FieldReadsBack(fields[0]);
      DataOfCons(RenderField(fields[0]), RenderFields(fields[1..]));
    }
  }

  /** However its fields are spelled, a rendered frame reads back as the frame meant: its data lines
      joined, its comments in order. */
  lemma FrameReadsBack(decode: Decoder, raw: Bytes, fields: seq<Field>, done: bool)
    requires fields != [] && forall i :: 0 <= i < |fields| ==> IsField(fields[i])
    requires decode(raw) == Some(JoinLines(RenderFields(fields)))
    ensures FrameOf(decode, raw, done) == Meant(fields, done)
  {
    var lines := RenderFields(fields);
    RenderedLines(fields);
    forall i | 0 <= i < |lines|
      ensures '\n' !in lines[i] && '\r' !in lines[i] && ReadLine(lines[i]) != UnsupportedLine
    {
      FieldReadsBack(fields[i]);
    }
    SplitUndoesJoin(lines);
    NoReturnInJoin(lines);
    FieldsReadBack(fields);
  }

  /** The field that a supported line spells. */
  lemma LineIsField(line: string) returns (f: Field)
    requires '\n' !in line && '\r' !in line && (":" <= line || line == "data" || "data:" <= line)
    ensures IsField(f) && RenderField(f) == line
  {
    if ":" <= line {
      var blanks, text := BlanksInFront(line[1..]);
      f := CommentField(blanks, text);
      assert line == ":" + line[1..];
    } else if line == "data" {
      f := BareDataField;
    } else {
      var value := line[5..];
      assert line == "data:" + value;
      if " " <= value {
        f := DataField(true, value[1..]);
        assert value == " " + value[1..];
      } else {
        f := DataField(false, value);
      }
    }
  }

  lemma {:induction false} BlanksInFront(s: string) returns (n: nat, text: string)
    ensures s == Blanks(n) + text && !(" " <= text)
    ensures forall c :: c in text ==> c in s
  {
    if " " <= s {
      n, text := BlanksInFront(s[1..]);
      assert s == " " + s[1..] && Blanks(n + 1) + text == " " + (Blanks(n) + text);
      n := n + 1;
    } else {
      n, text := 0, s;
    }
  }

  /** No frame with any other line in it is accepted, nor one with a carriage return in its text. */
  lemma OtherLinesAreRefused(decode: Decoder, raw: Bytes, lines: seq<string>, done: bool, i: nat)
    requires i < |lines| && forall k :: 0 <= k < |lines| ==> '\n' !in lines[k]
    requires decode(raw) == Some(JoinLines(lines))
    requires '\r' in lines[i] || !(":" <= lines[i] || lines[i] == "data" || "data:" <= lines[i])
    ensures FrameOf(decode, raw, done).Raised?
  {
    SplitUndoesJoin(lines);
    if '\r' in lines[i] {
      JoinHas(lines, i, '\r');
    }
  }

  lemma {:induction false} JoinHas(lines: seq<string>, i: nat, c: char)
    requires i < |lines| && c in lines[i]
    ensures c in JoinLines(lines)
  {
    if i > 0 {
      JoinHas(lines[1..], i - 1, c);
    }
  }

  lemma {:induction false} JoinUndoesSplit(text: string)
    ensures JoinLines(SplitLines(text)) == text
    ensures forall k :: 0 <= k < |SplitLines(text)| ==> '\n' !in SplitLines(text)[k]
  {
    if text != "" {
      var rest := SplitLines(text[1..]);
      JoinUndoesSplit(text[1..]);
      assert text == [text[0]] + text[1..];
      if text[0] == '\n' {
        assert ([""] + rest)[1..] == rest;
      } else {
        var lines := [[text[0]] + rest[0]] + rest[1..];
        assert lines[1..] == rest[1..];
        forall k | 0 <= k < |lines| ensures '\n' !in lines[k] {
          assert '\n' !in rest[k];
        }
      }
    }
  }

  /** The lines of a text as fields, unless one of them is none. */
  lemma {:induction false} FieldsOf(lines: seq<string>) returns (fields: seq<Field>)
    requires forall k :: 0 <= k < |lines| ==>
               '\n' !in lines[k] && '\r' !in lines[k]
               && (":" <= lines[k] || lines[k] == "data" || "data:" <= lines[k])
    ensures RenderFields(fields) == lines && forall i :: 0 <= i < |fields| ==> IsField(fields[i])
  {
    if lines == [] {
      fields := [];
    } else {
      var first := LineIsField(lines[0]);
      var others := FieldsOf(lines[1..]);
      fields := [first] + others;
      assert fields[1..] == others && lines == [lines[0]] + lines[1..];
    }
  }

  /** Bytes are read as a frame exactly when they spell fields whose frame is meant to be read. */
  ghost predicate Spells(decode: Decoder, raw: Bytes, fields: seq<Field>) {
    && fields != [] && (forall i :: 0 <= i < |fields| ==> IsField(fields[i]))
    && decode(raw) == Some(JoinLines(RenderFields(fields)))
  }

  lemma FramesAreSpelled(decode: Decoder, raw: Bytes, done: bool)
    ensures FrameOf(decode, raw, done).Returned?
            <==> exists fields :: Spells(decode, raw, fields) && Meant(fields, done).Returned?
    ensures forall fields :: Spells(decode, raw, fields) ==> FrameOf(decode, raw, done) == Meant(fields, done)
  {
    forall fields | Spells(decode, raw, fields) ensures FrameOf(decode, raw, done) == Meant(fields, done) {
      FrameReadsBack(decode, raw, fields, done);
    }
    if FrameOf(decode, raw, done).Returned? {
      var fields := SpelledFrame(decode, raw, done);
      assert Spells(decode, raw, fields);
    }
  }

  lemma SpelledFrame(decode: Decoder, raw: Bytes, done: bool) returns (fields: seq<Field>)
    requires FrameOf(decode, raw, done).Returned?
    ensures Spells(decode, raw, fields)
  {
    var text := decode(raw).value;
    var lines := SplitLines(text);
    JoinUndoesSplit(text);
    forall k | 0 <= k < |lines|
      ensures '\r' !in lines[k] && (":" <= lines[k] || lines[k] == "data" || "data:" <= lines[k])
    {
      assert ReadLine(lines[k]) != UnsupportedLine;
      if '\r' in lines[k] {
        JoinHas(lines, k, '\r');
      }
    }
    fields := FieldsOf(lines);
  }

  // ---------------------------------------------------------------- a stream of frames

  /** The bytes of one frame: not empty, no carriage return, and no blank line but the one behind it. */
  predicate IsFrameBytes(raw: Bytes) {
    raw != [] && CR !in raw && FirstBlank(raw + [LF, LF]) == Some(|raw|)
  }

  function Wire(raws: seq<Bytes>): Bytes {
    if raws == [] then [] else raws[0] + [LF, LF] + Wire(raws[1..])
  }

  /** The frames meant one after the other, and the flag behind them. */
  function FramesOf(decode: Decoder, raws: seq<Bytes>, done: bool): Result<(seq<SSEFrame>, bool)> {
    if raws == [] then Returned(([], done))
    else
      var first := FrameOf(decode, raws[0], done);
      if first.Raised? then Raised
      else
        var rest := FramesOf(decode, raws[1..], first.value.1);
        if rest.Raised? then Raised else Returned(([first.value.0] + rest.value.0, rest.value.1))
  }

  lemma {:induction false} WireIsDrained(decode: Decoder, raws: seq<Bytes>, done: bool)
    requires forall i :: 0 <= i < |raws| ==> IsFrameBytes(raws[i])
    ensures var meant := FramesOf(decode, raws, done); var d := Drain(decode, Wire(raws), done);
            if meant.Raised? then d.raised else d == Drained(meant.value.0, [], meant.value.1, false)
  {
    if raws == [] {
      DrainNothing(decode, done);
    } else {
      var raw, first := raws[0], FrameOf(decode, raws[0], done);
      FrontOfFrame(raw);
      DrainStep(decode, raw + [LF, LF], done, |raw|, Wire(raws[1..]));
      if first.Returned? {
        WireIsDrained(decode, raws[1..], first.value.1);
      }
    }
  }

  lemma {:induction false} NoReturnOnWire(raws: seq<Bytes>)
    requires forall i :: 0 <= i < |raws| ==> CR !in raws[i]
    ensures CR !in Wire(raws)
  {
    if raws != [] {
      NoReturnOnWire(raws[1..]);
    }
  }

  /** Whatever frames a sender writes, and however the bytes are cut into chunks within the size limit,
      the parser returns exactly those frames and keeps nothing, or refuses the stream if one of the
      frames is to be refused. */
  lemma AnyChunkingDeliversTheFrames(decode: Decoder, raws: seq<Bytes>, chunks: seq<Bytes>)
    requires forall i :: 0 <= i < |raws| ==> IsFrameBytes(raws[i])
    requires Flatten(chunks) == Wire(raws) && ReadAll(decode, chunks).fault != LimitFault
    ensures var meant := FramesOf(decode, raws, false); var run := ReadAll(decode, chunks);
            if meant.Raised? then run.fault == ProtocolFault
            else run == ParserRun(meant.value.0, [], meant.value.1, NoFault)
  {
    NoReturnOnWire(raws);
    assert !HasInnerCrCrLf(Wire(raws)) && CrLfFree(Wire(raws));
    NormaliseFixes(Wire(raws));
    WireIsDrained(decode, raws, false);
    ChunkingIsInvisible(decode, chunks);
  }

  /** Bytes of newlines only, LF or CR LF. */
  predicate OnlyNewlines(b: Bytes) {
    forall i: nat :: i < |b| ==> IsNewlineAt(b, i)
  }

  predicate IsNewlineAt(b: Bytes, i: nat)
    requires i < |b|
  {
    b[i] == LF || (b[i] == CR && i + 1 < |b| && b[i + 1] == LF)
  }

  /** `finalize` accepts exactly a stream that was done and left newlines only. */
  lemma FinalizeAcceptsExactly(buffer: Bytes, done: bool)
    ensures FinalizeAccepts(buffer, done) <==> done && OnlyNewlines(buffer)
  {
    AllLfExactly(buffer, Normalise(buffer));
    if FinalizeAccepts(buffer, done) {
      forall i | 0 <= i < |Normalise(buffer)| ensures Normalise(buffer)[i] == LF {
      }
    }
  }

  predicate AllLf(n: Bytes) {
    forall i :: 0 <= i < |n| ==> n[i] == LF
  }

  lemma {:induction false} AllLfExactly(b: Bytes, n: Bytes)
    requires n == Normalise(b)
    ensures AllLf(n) <==> OnlyNewlines(b)
  {
    if b != [] {
      var pair := b[0] == CR && |b| >= 2 && b[1] == LF;
      var rest := if pair then b[2..] else b[1..];
      AllLfExactly(rest, Normalise(rest));
      assert Normalise(b) == [if pair then LF else b[0]] + Normalise(rest);
      AllLfCons(if pair then LF else b[0], Normalise(rest));
      assert OnlyNewlines(b) <==> (pair || b[0] == LF) && OnlyNewlines(rest) by {
        NewlinesCons(b, rest);
      }
    }
  }

  lemma AllLfCons(head: Byte, n: Bytes)
    ensures AllLf([head] + n) <==> head == LF && AllLf(n)
  {
    assert ([head] + n)[0] == head;
    assert forall i :: 0 <= i < |n| ==> ([head] + n)[i + 1] == n[i];
  }

  lemma NewlinesCons(b: Bytes, rest: Bytes)
    requires b != [] && rest == if b[0] == CR && |b| >= 2 && b[1] == LF then b[2..] else b[1..]
    ensures OnlyNewlines(b) <==> ((b[0] == CR && |b| >= 2 && b[1] == LF) || b[0] == LF) && OnlyNewlines(rest)
  {
    var k: nat := |b| - |rest|;
    assert forall i: nat :: i < |rest| ==> (IsNewlineAt(rest, i) <==> IsNewlineAt(b, i + k));
    assert OnlyNewlines(b) ==> IsNewlineAt(b, 0);
    if OnlyNewlines(rest) && IsNewlineAt(b, 0) {
      forall i: nat | i < |b| ensures IsNewlineAt(b, i) {
        if i >= k {
          assert IsNewlineAt(rest, i - k);
        }
      }
    }
  }

  /** A refused frame is taken off with all frames in front of it, and what stands behind it stays. */
  lemma {:induction false} RefusedFrameLeavesRest(
    decode: Decoder, raws: seq<Bytes>, bad: Bytes, rest: Bytes, done: bool)
    requires IsFrameBytes(bad) && forall i :: 0 <= i < |raws| ==> IsFrameBytes(raws[i])
    requires FramesOf(decode, raws, done).Returned?
    requires FrameOf(decode, bad, FramesOf(decode, raws, done).value.1).Raised?
    ensures var d := Drain(decode, Wire(raws) + (bad + [LF, LF] + rest), done);
            d.raised && d.buffer == rest && d.done == FramesOf(decode, raws, done).value.1
  {
    if raws == [] {
      DrainFront(decode, bad, rest, done);
      assert Wire(raws) + (bad + [LF, LF] + rest) == bad + [LF, LF] + rest;
    } else {
      var behind := Wire(raws[1..]) + (bad + [LF, LF] + rest);
      RefusedFrameLeavesRest(decode, raws[1..], bad, rest, FrameOf(decode, raws[0], done).value.1);
      DrainFront(decode, raws[0], behind, done);
      ConcatAssociates(raws[0] + [LF, LF], Wire(raws[1..]), bad + [LF, LF] + rest);
    }
  }

  lemma DrainFront(decode: Decoder, raw: Bytes, rest: Bytes, done: bool)
    requires IsFrameBytes(raw)
    ensures var first := FrameOf(decode, raw, done);
            Drain(decode, raw + [LF, LF] + rest, done)
            == if first.Raised? then Drained([], rest, done, true)
               else Drain(decode, rest, first.value.1).After([first.value.0])
  {
    FrontOfFrame(raw);
    DrainStep(decode, raw + [LF, LF], done, |raw|, rest);
  }

  // ---------------------------------------------------------------- ASCII frames

  /** The bytes of a frame with one line of data. */
  function DataFrame(text: string): Bytes {
    Encode("data: " + text)
  }

  /** Text that one ASCII data line can carry. */
  predicate IsDataText(text: string) {
    IsAscii(text) && '\n' !in text && '\r' !in text
  }

  /** Under every decoder that reads ASCII the bytes of a data line are one frame: that line's data. */
  lemma DataFrameReadsBack(decode: Decoder, text: string)
    requires ReadsAscii(decode) && IsDataText(text)
    ensures IsFrameBytes(DataFrame(text)) && |DataFrame(text)| == 6 + |text|
    ensures FrameOf(decode, DataFrame(text), false) == Returned((DataOnly(text), text == "[DONE]"))
  {
    var field := DataField(true, text);
    OneField(field);
    assert IsAscii("data: " + text);
    FrameReadsBack(decode, DataFrame(text), [field], false);
    DataFrameIsOne(text);
  }

  function DataOnly(text: string): SSEFrame {
    SSEFrame(if text == "[DONE]" then FrameKind.Done else Data, Some(text), [])
  }

  lemma OneField(field: Field)
    requires field.DataField? && field.blank
    ensures RenderFields([field]) == ["data: " + field.text] && DataTexts([field]) == [field.text]
    ensures CommentTexts([field]) == []
  {
    assert [field][1..] == [] && RenderField(field) == "data: " + field.text;
    ConcatNothing(["data: " + field.text]);
    ConcatNothing([field.text]);
  }

  lemma DataFrameIsOne(text: string)
    requires IsDataText(text)
    ensures IsFrameBytes(DataFrame(text))
  {
    var line := "data: " + text;
    if CR in DataFrame(text) {
      EncodeHas(line, '\r');
    }
    if LF in DataFrame(text) {
      EncodeHas(line, '\n');
    }
    NoLfIsOneFrame(DataFrame(text));
  }

  lemma {:induction false} NoLfIsOneFrame(raw: Bytes)
    requires LF !in raw
    ensures FirstBlank(raw + [LF, LF]) == Some(|raw|)
  {
    if raw == [] {
      ConcatNothing([LF, LF]);
    } else {
      NoLfIsOneFrame(raw[1..]);
      assert raw + [LF, LF] == [raw[0]] + (raw[1..] + [LF, LF]);
      BlankBehind(raw[0], raw[1..] + [LF, LF]);
    }
  }

  // ---------------------------------------------------------------- a frame in one read

  lemma FrameIsRead(decode: Decoder, raw: Bytes, frame: SSEFrame, done: bool)
    requires IsFrameBytes(raw) && |raw| + 2 <= MAX_SSE_BUFFER_BYTES
    requires FrameOf(decode, raw, false) == Returned((frame, done))
    ensures FeedOf(decode, [], false, raw + [LF, LF]) == FeedEffect([], done, Accepted([frame]))
  {
    FramedIsNormal(raw);
    DrainOneFrame(decode, raw, false);
    FreshFeed(decode, raw + [LF, LF]);
  }

  lemma FreshFeed(decode: Decoder, chunk: Bytes)
    requires 0 < |chunk| <= MAX_SSE_BUFFER_BYTES && Normalise(chunk) == chunk
    ensures var d := Drain(decode, chunk, false);
            FeedOf(decode, [], false, chunk)
            == FeedEffect(d.buffer, d.done, if d.raised then ProtocolError else Accepted(d.frames))
  {
    ConcatNothing(chunk);
  }

  lemma FramedIsNormal(raw: Bytes)
    requires CR !in raw
    ensures Normalise(raw + [LF, LF]) == raw + [LF, LF]
  {
    assert CR !in raw + [LF, LF];
    NormaliseFixes(raw + [LF, LF]);
  }
}
