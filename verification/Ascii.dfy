/** ASCII text as bytes, which every UTF-8 decoder reads back. */
module Ascii {
  import opened Prelude
  import opened Sse

  predicate IsAscii(text: string) {
    forall i :: 0 <= i < |text| ==> text[i] as int < 128
  }

  /** One byte a character; a question mark stands for what is not ASCII. */
  function Encode(text: string): (raw: Bytes)
    ensures |raw| == |text|
    ensures forall i :: 0 <= i < |text| ==> raw[i] == ByteOf(text[i])
  {
    if text == [] then [] else [ByteOf(text[0])] + Encode(text[1..])
  }

  function ByteOf(c: char): Byte {
    if c as int < 128 then c as int as Byte else 63
  }

  /** What is needed of UTF-8 to read ASCII: its bytes decode to the characters they are. */
  ghost predicate ReadsAscii(decode: Decoder) {
    forall text: string :: IsAscii(text) ==> decode(Encode(text)) == Some(text)
  }

  /** The strict ASCII decoder, the least decoder that does so. */
  function AsciiDecode(raw: Bytes): (text: Option<string>)
    ensures text.Some? ==> |text.value| == |raw|
  {
    if raw == [] then Some([])
    else if raw[0] >= 128 then None
    else
      var rest := AsciiDecode(raw[1..]);
      if rest.None? then None else Some([raw[0] as int as char] + rest.value)
  }

  lemma {:induction false} AsciiDecodesBack(text: string)
    requires IsAscii(text)
    ensures AsciiDecode(Encode(text)) == Some(text)
  {
    if text != [] {
      AsciiDecodesBack(text[1..]);
      assert Encode(text)[1..] == Encode(text[1..]);
      assert [text[0]] + text[1..] == text;
    }
  }

  /** There are decoders that read ASCII. */
  lemma AsciiDecodeReadsAscii()
    ensures ReadsAscii(AsciiDecode)
  {
    forall text: string | IsAscii(text) ensures AsciiDecode(Encode(text)) == Some(text) {
      AsciiDecodesBack(text);
    }
  }

  lemma EncodeHas(text: string, c: char)
    requires IsAscii(text) && c as int < 128 && ByteOf(c) in Encode(text)
    ensures c in text
  {
    var i :| 0 <= i < |text| && Encode(text)[i] == ByteOf(c);
    assert text[i] == c;
  }
}
