/** The incremental server-sent-event parser of `sse.py`: bytes in, frames out.

    A frame is whatever stands between two blank lines after CRLF has been turned into LF. The
    parser does that conversion on its own buffer at every read, so what it computes could depend
    on how the transport cut the stream; module `SseChunking` says exactly when it does. */
module Sse {
  import opened Prelude

  newtype Byte = b: int | 0 <= b < 256
  type Bytes = seq<Byte>

  const LF: Byte := 10
  const CR: Byte := 13
  const MAX_SSE_BUFFER_BYTES := 64 * 1024

  datatype FrameKind = Comment | Data | Done
  datatype SSEFrame = SSEFrame(kind: FrameKind, data: Option<string>, comments: seq<string>)

  /** UTF-8 decoding; `None` stands for UnicodeDecodeError. */
  type Decoder = Bytes -> Option<string>

  /** What the results below need of UTF-8: a carriage return byte stays visible as a character. */
  ghost predicate KeepsCarriageReturns(decode: Decoder) {
    forall raw: Bytes :: CR in raw && decode(raw).Some? ==> '\r' in decode(raw).value
  }

  // ---------------------------------------------------------------- byte-level operations

  /** `bytes.replace(b"\r\n", b"\n")`. */
  function Normalise(b: Bytes): (n: Bytes)
    ensures |n| <= |b|
  {
    if b == [] then []
    else if b[0] == CR && |b| >= 2 && b[1] == LF then [LF] + Normalise(b[2..])
    else [b[0]] + Normalise(b[1..])
  }

  /** Where the first blank line (`b"\n\n"`) starts. */
  function FirstBlank(b: Bytes): (at: Option<nat>)
    ensures at.Some? ==> at.value + 2 <= |b| && b[at.value] == LF && b[at.value + 1] == LF
  {
    if |b| < 2 then None
    else if b[0] == LF && b[1] == LF then Some(0)
    else
      match FirstBlank(b[1..])
      case None => None
      case Some(k) => Some(k + 1)
  }

  // ---------------------------------------------------------------- one frame

  /** `str.split("\n")`: never empty. */
  function SplitLines(text: string): (lines: seq<string>)
    ensures |lines| > 0
  {
    if text == "" then [""]
    else
      var rest := SplitLines(text[1..]);
      if text[0] == '\n' then [""] + rest else [[text[0]] + rest[0]] + rest[1..]
  }

  function JoinLines(lines: seq<string>): (text: string) {
    if lines == [] then ""
    else if |lines| == 1 then lines[0]
    else lines[0] + "\n" + JoinLines(lines[1..])
  }

  function StripLeadingSpaces(s: string): string {
    if s != "" && s[0] == ' ' then StripLeadingSpaces(s[1..]) else s
  }

  datatype Line = CommentLine(text: string) | DataLine(text: string) | UnsupportedLine

  function ReadLine(line: string): Line {
    if ":" <= line then CommentLine(StripLeadingSpaces(line[1..]))
    else if line == "data" then DataLine("")
    else if "data:" <= line then
      var value := line[5..];
      DataLine(if " " <= value then value[1..] else value)
    else UnsupportedLine
  }

  function DataOf(lines: seq<string>): seq<string> {
    if lines == [] then []
    else
      var rest := DataOf(lines[..|lines| - 1]);
      match ReadLine(lines[|lines| - 1]) case DataLine(text) => rest + [text] case _ => rest
  }

  function CommentsOf(lines: seq<string>): seq<string> {
    if lines == [] then []
    else
      var rest := CommentsOf(lines[..|lines| - 1]);
      match ReadLine(lines[|lines| - 1]) case CommentLine(text) => rest + [text] case _ => rest
  }

  predicate AllSupported(lines: seq<string>) {
    forall i :: 0 <= i < |lines| ==> ReadLine(lines[i]) != UnsupportedLine
  }

  /** What one more line adds. */
  lemma OneMoreLine(lines: seq<string>, i: nat)
    requires i < |lines|
    ensures AllSupported(lines[..i + 1]) <==> AllSupported(lines[..i]) && ReadLine(lines[i]) != UnsupportedLine
    ensures DataOf(lines[..i + 1])
            == DataOf(lines[..i]) + (match ReadLine(lines[i]) case DataLine(text) => [text] case _ => [])
    ensures CommentsOf(lines[..i + 1])
            == CommentsOf(lines[..i]) + (match ReadLine(lines[i]) case CommentLine(text) => [text] case _ => [])
    ensures ReadLine(lines[i]) == UnsupportedLine ==> !AllSupported(lines)
  {
    assert lines[..i + 1][..i] == lines[..i] && lines[..i + 1][i] == lines[i];
    assert forall k :: 0 <= k < i ==> lines[..i + 1][k] == lines[..i][k];
  }

  /** The frame that raw bytes denote and the `[DONE]` flag afterwards, given the flag before. */
  function FrameOf(decode: Decoder, raw: Bytes, done: bool): (r: Result<(SSEFrame, bool)>) {
    match decode(raw)
    case None => Raised
    case Some(text) =>
      var lines := SplitLines(text);
      if '\r' in text || !AllSupported(lines) then Raised else FrameFrom(DataOf(lines), CommentsOf(lines), done)
  }

  /** The frame of some data and comment lines: data may not follow `[DONE]`. */
  function FrameFrom(dataLines: seq<string>, comments: seq<string>, done: bool): (r: Result<(SSEFrame, bool)>) {
    var data := JoinLines(dataLines);
    if dataLines == [] then Returned((SSEFrame(Comment, None, comments), done))
    else if done then Raised
    else if data == "[DONE]" then Returned((SSEFrame(FrameKind.Done, Some(data), comments), true))
    else Returned((SSEFrame(Data, Some(data), comments), false))
  }

  // ---------------------------------------------------------------- one read

  /** What draining complete frames out of a buffer leaves behind. */
  datatype Drained = Drained(frames: seq<SSEFrame>, buffer: Bytes, done: bool, raised: bool) {
    /** The same, had `earlier` frames been taken off first. */
    function After(earlier: seq<SSEFrame>): Drained {
      Drained(earlier + frames, buffer, done, raised)
    }

    lemma AfterNothing()
      ensures After([]) == this
    {
      assert [] + frames == frames;
    }

    lemma AfterBoth(first: seq<SSEFrame>, second: seq<SSEFrame>)
      ensures After(second).After(first) == After(first + second)
    {
      assert first + (second + frames) == first + second + frames;
    }
  }

  /** Take frames off the front until no blank line is left or a frame is refused. */
  function Drain(decode: Decoder, buffer: Bytes, done: bool): (d: Drained)
    ensures |d.buffer| <= |buffer|
    ensures !d.raised ==> FirstBlank(d.buffer) == None
    decreases |buffer|
  {
    match FirstBlank(buffer)
    case None => Drained([], buffer, done, false)
    case Some(at) =>
      var rest := buffer[at + 2..];
      if at == 0 then Drain(decode, rest, done)
      else
        match FrameOf(decode, buffer[..at], done)
        case Raised => Drained([], rest, done, true)
        case Returned((frame, done')) =>
          Drain(decode, rest, done').After([frame])
  }

  datatype FeedStatus = Accepted(frames: seq<SSEFrame>) | LimitExceeded | ProtocolError

  /** The whole effect of one `feed`: the new buffer and flag, and what is returned or raised. */
  datatype FeedEffect = FeedEffect(buffer: Bytes, done: bool, status: FeedStatus)

  function FeedOf(decode: Decoder, buffer: Bytes, done: bool, chunk: Bytes): FeedEffect {
    if chunk == [] then FeedEffect(buffer, done, Accepted([]))
    else if |buffer + chunk| > MAX_SSE_BUFFER_BYTES then FeedEffect(buffer + chunk, done, LimitExceeded)
    else
      var d := Drain(decode, Normalise(buffer + chunk), done);
      FeedEffect(d.buffer, d.done, if d.raised then ProtocolError else Accepted(d.frames))
  }

  /** `finalize`: only newlines may be pending and the `[DONE]` marker must have been seen. */
  predicate FinalizeAccepts(buffer: Bytes, done: bool) {
    done && forall i :: 0 <= i < |Normalise(buffer)| ==> Normalise(buffer)[i] == LF
  }

  class IncrementalSSEParser {
    const decode: Decoder
    var buffer: Bytes
    var done: bool

    constructor (decode: Decoder)
      ensures this.decode == decode && buffer == [] && !done
    {
      this.decode := decode;
      buffer, done := [], false;
    }

    method Feed(chunk: Bytes) returns (status: FeedStatus)
      modifies this
      ensures FeedEffect(buffer, done, status) == FeedOf(decode, old(buffer), old(done), chunk)
      ensures status.LimitExceeded? <==> chunk != [] && |old(buffer)| + |chunk| > 65_536
      ensures status.LimitExceeded? ==> buffer == old(buffer) + chunk && done == old(done)
    {
      if chunk == [] {
        return Accepted([]);
      }
      buffer := buffer + chunk;
      if |buffer| > MAX_SSE_BUFFER_BYTES {
        return LimitExceeded;
      }
      buffer := Normalise(buffer);
      ghost var whole := Drain(decode, buffer, done);
      var frames: seq<SSEFrame> := [];
      whole.AfterNothing();
      var blank := FirstBlank(buffer);
      while blank.Some?
        invariant blank == FirstBlank(buffer)
        invariant whole == Drain(decode, buffer, done).After(frames)
        decreases |buffer|
      {
        var raw := buffer[..blank.value];
        buffer := buffer[blank.value + 2..];
        if raw != [] {
          ghost var rest := buffer;
          var parsed := ParseFrame(raw);
          if parsed.Raised? {
            return ProtocolError;
          }
          Drain(decode, rest, done).AfterBoth(frames, [parsed.value]);
          frames := frames + [parsed.value];
        }
        blank := FirstBlank(buffer);
      }
      assert Drain(decode, buffer, done) == Drained([], buffer, done, false);
      assert frames + [] == frames;
      return Accepted(frames);
    }

    method ParseFrame(raw: Bytes) returns (parsed: Result<SSEFrame>)
      modifies `done
      ensures match FrameOf(decode, raw, old(done))
              case Raised => parsed == Raised && done == old(done)
              case Returned((frame, done')) => parsed == Returned(frame) && done == done'
    {
      var decoded := decode(raw);
      if decoded.None? || '\r' in decoded.value {
        return Raised;
      }
      var lines := SplitLines(decoded.value);
      ghost var meant := FrameOf(decode, raw, done);
      var dataLines: seq<string>, comments: seq<string> := [], [];
      for i := 0 to |lines|
        invariant done == old(done)
        invariant meant == if AllSupported(lines) then FrameFrom(DataOf(lines), CommentsOf(lines), done) else Raised
        invariant AllSupported(lines[..i])
        invariant dataLines == DataOf(lines[..i]) && comments == CommentsOf(lines[..i])
      {
        OneMoreLine(lines, i);
        match ReadLine(lines[i])
        case CommentLine(text) => comments := comments + [text];
        case DataLine(text) => dataLines := dataLines + [text];
        case UnsupportedLine => return Raised;
      }
      assert lines[..|lines|] == lines;
      if dataLines == [] {
        return Returned(SSEFrame(Comment, None, comments));
      }
      var data := JoinLines(dataLines);
      if data == "[DONE]" {
        if done {
          return Raised;
        }
        done := true;
        return Returned(SSEFrame(FrameKind.Done, Some(data), comments));
      }
      if done {
        return Raised;
      }
      return Returned(SSEFrame(Data, Some(data), comments));
    }

    method Finalize() returns (outcome: Result<()>)
      ensures outcome == if FinalizeAccepts(buffer, done) then Returned(()) else Raised
    {
      var remaining := Normalise(buffer);
      if exists i :: 0 <= i < |remaining| && remaining[i] != LF {
        return Raised;
      }
      if !done {
        return Raised;
      }
      return Returned(());
    }
  }
}
