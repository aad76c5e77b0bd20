/** Every spelling of a Content-Type value and what it means: the parser accepts exactly the texts that spell
    a media type and parameters, and returns what they spell. */
module ContentTypeSpelling {
  import opened Prelude
  import opened ContentType

  // ---------------------------------------------------------------- spellings

  /** Spaces and tabs, or nothing. */
  predicate AreBlanks(s: string) {
    forall i :: 0 <= i < |s| ==> s[i] == ' ' || s[i] == '\t'
  }

  /** One parameter with the blanks around its name and around its value. */
  datatype Spelling = Spelling(lead: string, name: string, gap: string, gap': string, value: string, trail: string)

  predicate HasBlanks(p: Spelling) {
    AreBlanks(p.lead) && AreBlanks(p.gap) && AreBlanks(p.gap') && AreBlanks(p.trail)
  }

  function Write(p: Spelling): string {
    p.lead + ((p.name + p.gap) + "=" + (p.gap' + p.value)) + p.trail
  }

  function WriteAll(ps: seq<Spelling>): string {
    if ps == [] then "" else ";" + (Write(ps[0]) + WriteAll(ps[1..]))
  }

  /** The text is the media type and the parameters, spelled in this way: letters in any case, blanks around
      every piece and around every equals sign, names that differ once folded. */
  predicate Spells(
    f: Folding, text: string, before: string, media: string, after: string, ps: seq<Spelling>, parsed: Parsed)
  {
    && text == before + media + after + WriteAll(ps) && AreBlanks(before) && AreBlanks(after)
    && Fold(f, media) == parsed.media && IsMediaType(parsed.media)
    && |parsed.parameters| == |ps|
    && (forall i :: 0 <= i < |ps| ==>
          && HasBlanks(ps[i]) && Fold(f, ps[i].name) == parsed.parameters[i].name && IsToken(parsed.parameters[i].name)
          && ps[i].value == parsed.parameters[i].value && IsValue(ps[i].value))
    && forall i, j :: 0 <= i < j < |ps| ==> parsed.parameters[i].name != parsed.parameters[j].name
  }

  // ---------------------------------------------------------------- blanks

  /** Text with no blank at either end. */
  predicate IsBare(s: string) {
    s != [] && !IsBlank(s[0]) && !IsBlank(s[|s| - 1])
  }

  lemma {:induction false} StripLeftBlanks(a: string, s: string)
    requires AreBlanks(a) && s != [] && !IsBlank(s[0])
    ensures StripLeft(a + s) == s
  {
    if a == [] {
      assert a + s == s;
    } else {
      assert (a + s)[1..] == a[1..] + s;
      StripLeftBlanks(a[1..], s);
    }
  }

  lemma {:induction false} StripRightBlanks(s: string, b: string)
    requires AreBlanks(b) && s != [] && !IsBlank(s[|s| - 1])
    ensures StripRight(s + b) == s
  {
    if b == [] {
      assert s + b == s;
    } else {
      assert (s + b)[..|s + b| - 1] == s + b[..|b| - 1];
      StripRightBlanks(s, b[..|b| - 1]);
    }
  }

  lemma StripAround(a: string, s: string, b: string)
    requires AreBlanks(a) && AreBlanks(b) && IsBare(s)
    ensures Strip(a + s + b) == s
  {
    ConcatAssociates(a, s, b);
    StripLeftBlanks(a, s + b);
    StripRightBlanks(s, b);
  }

  lemma {:induction false} BlanksLeft(s: string) returns (a: string)
    ensures s == a + StripLeft(s) && AreBlanks(a)
  {
    if s != [] && IsBlank(s[0]) {
      var rest := BlanksLeft(s[1..]);
      a := [s[0]] + rest;
      assert s == [s[0]] + s[1..];
    } else {
      a := [];
      assert s == a + s;
    }
  }

  lemma {:induction false} BlanksRight(s: string) returns (b: string)
    ensures s == StripRight(s) + b && AreBlanks(b)
  {
    if s != [] && IsBlank(s[|s| - 1]) {
      var front := BlanksRight(s[..|s| - 1]);
      b := front + [s[|s| - 1]];
      assert s == s[..|s| - 1] + [s[|s| - 1]];
    } else {
      b := [];
      assert s == s + b;
    }
  }

  lemma BlanksAround(s: string) returns (a: string, b: string)
    ensures s == a + Strip(s) + b && AreBlanks(a) && AreBlanks(b)
  {
    a := BlanksLeft(s);
    b := BlanksRight(StripLeft(s));
    ConcatAssociates(a, Strip(s), b);
  }

  lemma BlanksAreInert(s: string)
    requires AreBlanks(s)
    ensures NoQuoteNorCut(s) && !HasControl(s) && '=' !in s
  {
  }

  // ---------------------------------------------------------------- folded text

  /** What folds to token characters and slashes is itself free of everything the scan looks at. */
  lemma {:induction false} FoldedIsPlain(f: Folding, s: string)
    requires IsFolding(f) && forall i :: 0 <= i < |Fold(f, s)| ==> IsTokenChar(Fold(f, s)[i]) || Fold(f, s)[i] == '/'
    ensures NoQuoteNorCut(s) && !HasControl(s) && '=' !in s
    ensures forall i :: 0 <= i < |s| ==> !IsBlank(s[i])
  {
    if s != [] {
      var head, rest := f(s[0]), Fold(f, s[1..]);
      assert Fold(f, s) == head + rest;
      forall i | 0 <= i < |rest| ensures IsTokenChar(rest[i]) || rest[i] == '/' {
        assert (head + rest)[|head| + i] == rest[i];
      }
      FoldedIsPlain(f, s[1..]);
      if s[0] as int < 0x80 {
        assert head == [Lower(s[0])] && (head + rest)[0] == Lower(s[0]);
        LowerIsPlain(s[0]);
      }
      assert forall i :: 0 < i < |s| ==> s[i] == s[1..][i - 1];
    }
  }

  lemma LowerIsPlain(c: char)
    requires IsTokenChar(Lower(c)) || Lower(c) == '/'
    ensures c != '"' && c != ';' && c != '=' && !IsControl(c) && !IsBlank(c)
  {
  }

  lemma FoldedTokenIsBare(f: Folding, s: string)
    requires IsFolding(f) && IsToken(Fold(f, s))
    ensures IsBare(s) && NoQuoteNorCut(s) && !HasControl(s) && '=' !in s
  {
    FoldedIsPlain(f, s);
  }

  lemma FoldedMediaIsBare(f: Folding, s: string)
    requires IsFolding(f) && IsMediaType(Fold(f, s))
    ensures IsBare(s) && NoQuoteNorCut(s) && !HasControl(s)
  {
    var media := Fold(f, s);
    var k :| 0 <= k < |media| && media[k] == '/' && IsToken(media[..k]) && IsToken(media[k + 1..]);
    forall i | 0 <= i < |media| ensures IsTokenChar(media[i]) || media[i] == '/' {
      if i < k {
        assert media[i] == media[..k][i];
      } else if i > k {
        assert media[i] == media[k + 1..][i - k - 1];
      }
    }
    FoldedIsPlain(f, s);
  }

  // ---------------------------------------------------------------- a spelling is read as what it spells

  predicate IsWritten(f: Folding, p: Spelling) {
    HasBlanks(p) && IsToken(Fold(f, p.name)) && IsValue(p.value)
  }

  /** A written parameter: it stays in one piece, strips to its middle, and reads as its name and value. */
  lemma WrittenIsRead(f: Folding, p: Spelling)
    requires IsFolding(f) && IsWritten(f, p)
    ensures ParseParameter(f, Strip(Write(p))) == Some(Parameter(Fold(f, p.name), p.value))
  {
    FoldedTokenIsBare(f, p.name);
    ValueIsClean(p.value);
    BlanksAreInert(p.gap);
    var left, right := p.name + p.gap, p.gap' + p.value;
    var middle := left + "=" + right;
    assert middle[0] == p.name[0] && middle[|middle| - 1] == p.value[|p.value| - 1];
    StripAround(p.lead, middle, p.trail);
    StripSides(p);
    ParseAround(f, left, right);
  }

  lemma StripSides(p: Spelling)
    requires HasBlanks(p) && IsBare(p.name) && IsBare(p.value)
    ensures Strip(p.name + p.gap) == p.name && Strip(p.gap' + p.value) == p.value
  {
    StripAround([], p.name, p.gap);
    StripAround(p.gap', p.value, []);
    assert [] + p.name + p.gap == p.name + p.gap && p.gap' + p.value + [] == p.gap' + p.value;
  }

  lemma WrittenIsInert(f: Folding, p: Spelling)
    requires IsFolding(f) && IsWritten(f, p)
    ensures Uncut(Write(p), Plain) && End(Write(p), Plain) == Plain && !HasControl(Write(p))
  {
    FoldedTokenIsBare(f, p.name);
    ValueIsClean(p.value);
    ValueIsInert(p.value);
    FrontIsInert(p);
    BlanksAreInert(p.trail);
    PlainTextIsInert(p.trail);
    InertTogether(p.value, p.trail);
    InertTogether(Front(p), p.value + p.trail);
    WriteSplits(p);
  }

  lemma WriteSplits(p: Spelling)
    ensures Write(p) == Front(p) + (p.value + p.trail)
  {
    ConcatAssociates(p.lead + (p.name + (p.gap + ("=" + p.gap'))), p.value, p.trail);
    assert (p.name + p.gap) + "=" + (p.gap' + p.value) == (p.name + (p.gap + ("=" + p.gap'))) + p.value;
    ConcatAssociates(p.lead, p.name + (p.gap + ("=" + p.gap')), p.value);
  }

  /** All that stands before the value. */
  function Front(p: Spelling): string {
    p.lead + (p.name + (p.gap + ("=" + p.gap')))
  }

  lemma FrontIsInert(p: Spelling)
    requires HasBlanks(p) && NoQuoteNorCut(p.name) && !HasControl(p.name)
    ensures Uncut(Front(p), Plain) && End(Front(p), Plain) == Plain && !HasControl(Front(p))
  {
    BlanksAreInert(p.lead);
    BlanksAreInert(p.gap);
    BlanksAreInert(p.gap');
    PlainTogether("=", p.gap');
    PlainTogether(p.gap, "=" + p.gap');
    PlainTogether(p.name, p.gap + ("=" + p.gap'));
    PlainTogether(p.lead, p.name + (p.gap + ("=" + p.gap')));
    PlainTextIsInert(Front(p));
  }

  lemma PlainTogether(a: string, b: string)
    requires NoQuoteNorCut(a) && NoQuoteNorCut(b) && !HasControl(a) && !HasControl(b)
    ensures NoQuoteNorCut(a + b) && !HasControl(a + b)
  {
    CleanTogether(a, b);
  }

  lemma InertTogether(a: string, b: string)
    requires Uncut(a, Plain) && End(a, Plain) == Plain && !HasControl(a)
    requires Uncut(b, Plain) && End(b, Plain) == Plain && !HasControl(b)
    ensures Uncut(a + b, Plain) && End(a + b, Plain) == Plain && !HasControl(a + b)
  {
    UncutTogether(a, b, Plain);
    EndOfBoth(a, b, Plain);
    CleanTogether(a, b);
  }

  function Writings(ps: seq<Spelling>): (raws: seq<string>)
    ensures |raws| == |ps| && forall i :: 0 <= i < |ps| ==> raws[i] == Write(ps[i])
  {
    seq(|ps|, i requires 0 <= i < |ps| => Write(ps[i]))
  }

  lemma WritingsCons(ps: seq<Spelling>)
    requires ps != []
    ensures Writings(ps) == [Write(ps[0])] + Writings(ps[1..])
    ensures WriteAll(ps) == ";" + (Write(ps[0]) + WriteAll(ps[1..]))
  {
  }

  lemma {:induction false} WritingsAreCut(f: Folding, ps: seq<Spelling>)
    requires IsFolding(f)
    requires forall i :: 0 <= i < |ps| ==> IsWritten(f, ps[i])
    ensures Pieces(WriteAll(ps), Plain) == [[]] + Writings(ps)
    ensures End(WriteAll(ps), Plain) == Plain && !HasControl(WriteAll(ps))
  {
    if ps != [] {
      WritingsAreCut(f, ps[1..]);
      WrittenIsInert(f, ps[0]);
      CutOffText(Write(ps[0]), WriteAll(ps[1..]), Writings(ps[1..]));
      WritingsCons(ps);
    }
  }

  lemma CutOffText(text: string, rest: string, raws: seq<string>)
    requires Uncut(text, Plain) && End(text, Plain) == Plain && !HasControl(text)
    requires Pieces(rest, Plain) == [[]] + raws && End(rest, Plain) == Plain && !HasControl(rest)
    ensures Pieces(";" + (text + rest), Plain) == [[]] + ([text] + raws)
    ensures End(";" + (text + rest), Plain) == Plain && !HasControl(";" + (text + rest))
  {
    PiecesBehind(text, rest, Plain);
    EndOfBoth(text, rest, Plain);
    PrependToEmpty(text, raws);
    var tail := ";" + (text + rest);
    assert tail[0] == ';' && tail[1..] == text + rest;
    CleanTogether(text, rest);
    CleanTogether([';'], text + rest);
  }

  lemma {:induction false} SpelledParametersAreRead(
    f: Folding, ps: seq<Spelling>, parameters: seq<Parameter>, seen: set<string>)
    requires IsFolding(f) && |ps| == |parameters|
    requires forall i :: 0 <= i < |ps| ==>
               && IsWritten(f, ps[i])
               && parameters[i] == Parameter(Fold(f, ps[i].name), ps[i].value) && parameters[i].name !in seen
    requires forall i, j :: 0 <= i < j < |ps| ==> parameters[i].name != parameters[j].name
    ensures ParseParameters(f, StripAll(Writings(ps)), seen) == Returned(parameters)
    decreases |ps|
  {
    if ps != [] {
      WrittenIsRead(f, ps[0]);
      SpelledParametersAreRead(f, ps[1..], parameters[1..], seen + {parameters[0].name});
      WritingsCons(ps);
      StripHead(Write(ps[0]), Writings(ps[1..]));
      FirstIsRead(f, Strip(Write(ps[0])), StripAll(Writings(ps[1..])), parameters, seen);
    }
  }

  lemma FirstIsRead(f: Folding, raw: string, raws: seq<string>, parameters: seq<Parameter>, seen: set<string>)
    requires parameters != [] && ParseParameter(f, raw) == Some(parameters[0]) && parameters[0].name !in seen
    requires ParseParameters(f, raws, seen + {parameters[0].name}) == Returned(parameters[1..])
    ensures ParseParameters(f, [raw] + raws, seen) == Returned(parameters)
  {
    assert ([raw] + raws)[1..] == raws;
    assert [parameters[0]] + parameters[1..] == parameters;
  }

  lemma SpelledIsParsed(
    f: Folding, text: string, before: string, media: string, after: string, ps: seq<Spelling>, parsed: Parsed)
    requires IsFolding(f) && Spells(f, text, before, media, after, ps, parsed)
    ensures Parse(f, text) == Returned(parsed)
  {
    var head, tail := before + media + after, WriteAll(ps);
    FoldedMediaIsBare(f, media);
    BlanksAreInert(before);
    BlanksAreInert(after);
    PlainTextIsInert(head);
    WritingsAreCut(f, ps);
    CleanTogether(before, media);
    CleanTogether(before + media, after);
    CleanTogether(head, tail);
    EndOfBoth(head, tail, Plain);
    PiecesBehind(head, tail, Plain);
    PrependToEmpty(head, Writings(ps));
    StripHead(head, Writings(ps));
    StripAround(before, media, after);
    var raws := StripAll(Writings(ps));
    assert ([media] + raws)[1..] == raws;
    SpelledParametersAreRead(f, ps, parsed.parameters, {});
  }

  // ---------------------------------------------------------------- what is accepted is a spelling

  /** Pieces with a semicolon in front of each. */
  function Cuts(pieces: seq<string>): string {
    if pieces == [] then "" else ";" + (pieces[0] + Cuts(pieces[1..]))
  }

  lemma {:induction false} PiecesRejoin(s: string, mode: Mode)
    ensures s == Pieces(s, mode)[0] + Cuts(Pieces(s, mode)[1..])
  {
    if s != [] {
      if mode.Plain? && s[0] == ';' {
        PiecesRejoin(s[1..], Plain);
        var rest := Pieces(s[1..], Plain);
        assert ([[]] + rest)[1..] == rest;
        assert s == ";" + s[1..];
      } else {
        var rest := Pieces(s[1..], Next(mode, s[0]));
        PiecesRejoin(s[1..], Next(mode, s[0]));
        assert Prepend([s[0]], rest)[1..] == rest[1..];
        assert s == [s[0]] + s[1..];
      }
    }
  }

  /** A piece that reads as a parameter spells it. */
  lemma PieceIsSpelling(f: Folding, piece: string) returns (p: Spelling)
    requires ParseParameter(f, Strip(piece)).Some?
    ensures HasBlanks(p) && Write(p) == piece
    ensures ParseParameter(f, Strip(piece)) == Some(Parameter(Fold(f, p.name), p.value))
  {
    p := SpellingAround(piece, Strip(piece), IndexOf(Strip(piece), '='));
  }

  lemma SpellingAround(piece: string, raw: string, at: nat) returns (p: Spelling)
    requires raw == Strip(piece) && at < |raw| && raw[at] == '='
    ensures HasBlanks(p) && Write(p) == piece
    ensures p.name == Strip(raw[..at]) && p.value == Strip(raw[at + 1..])
  {
    var a, b := BlanksAround(piece);
    var lead, gap := BlanksAround(raw[..at]);
    var gap', trail := BlanksAround(raw[at + 1..]);
    p := Spelling(a + lead, Strip(raw[..at]), gap, gap', Strip(raw[at + 1..]), trail + b);
    assert raw == raw[..at] + "=" + raw[at + 1..];
    SpellingRejoins(piece, a, b, lead, p.name, gap, gap', p.value, trail);
  }

  lemma SpellingRejoins(
    piece: string, a: string, b: string, lead: string, name: string, gap: string, gap': string, value: string,
    trail: string)
    requires piece == a + ((lead + name + gap) + "=" + (gap' + value + trail)) + b
    ensures Write(Spelling(a + lead, name, gap, gap', value, trail + b)) == piece
  {
  }

  lemma {:induction false} PiecesAreSpellings(f: Folding, pieces: seq<string>, seen: set<string>)
    returns (ps: seq<Spelling>)
    requires ParseParameters(f, StripAll(pieces), seen).Returned?
    ensures |ps| == |pieces| && WriteAll(ps) == Cuts(pieces)
    ensures var parameters := ParseParameters(f, StripAll(pieces), seen).value;
            && |parameters| == |ps|
            && forall i :: 0 <= i < |ps| ==>
                 HasBlanks(ps[i]) && parameters[i] == Parameter(Fold(f, ps[i].name), ps[i].value)
    decreases |pieces|
  {
    if pieces == [] {
      ps := [];
    } else {
      assert StripAll(pieces)[0] == Strip(pieces[0]) && StripAll(pieces)[1..] == StripAll(pieces[1..]);
      var name := ParseParameter(f, Strip(pieces[0])).value.name;
      var first := PieceIsSpelling(f, pieces[0]);
      var others := PiecesAreSpellings(f, pieces[1..], seen + {name});
      ps := [first] + others;
      assert ps[1..] == others;
    }
  }

  lemma AcceptedIsSpelled(f: Folding, text: string)
    returns (before: string, media: string, after: string, ps: seq<Spelling>)
    requires IsFolding(f) && Parse(f, text).Returned?
    ensures Spells(f, text, before, media, after, ps, Parse(f, text).value)
  {
    var pieces := Pieces(text, Plain);
    PiecesRejoin(text, Plain);
    ParsedIsNormal(f, text);
    before, after := BlanksAround(pieces[0]);
    media := Strip(pieces[0]);
    StripHead(pieces[0], pieces[1..]);
    assert pieces == [pieces[0]] + pieces[1..];
    assert ([media] + StripAll(pieces[1..]))[1..] == StripAll(pieces[1..]);
    ps := PiecesAreSpellings(f, pieces[1..], {});
  }

  ghost predicate IsSpelled(f: Folding, text: string, parsed: Parsed) {
    exists before, media, after, ps :: Spells(f, text, before, media, after, ps, parsed)
  }

  /** The parser, exactly: it returns a pair if and only if the text is some spelling of it; every other text
      it refuses. */
  lemma ParsesExactlySpellings(f: Folding, text: string, parsed: Parsed)
    requires IsFolding(f)
    ensures Parse(f, text) == Returned(parsed) <==> IsSpelled(f, text, parsed)
  {
    if Parse(f, text) == Returned(parsed) {
      var before, media, after, ps := AcceptedIsSpelled(f, text);
    }
    if IsSpelled(f, text, parsed) {
      var before, media, after, ps :| Spells(f, text, before, media, after, ps, parsed);
      SpelledIsParsed(f, text, before, media, after, ps, parsed);
    }
  }

  // ---------------------------------------------------------------- the grammar of tokens

  /** What parts tokens (RFC 9110, section 5.6.2). */
  predicate IsDelimiter(c: char) {
    || c == '"' || c == '(' || c == ')' || c == ',' || c == '/' || c == ':' || c == ';' || c == '<' || c == '='
    || c == '>' || c == '?' || c == '@' || c == '[' || c == '\\' || c == ']' || c == '{' || c == '}'
  }

  /** Token characters are the visible ones of ASCII but the delimiters. */
  lemma TokenCharsExactly(c: char)
    ensures IsTokenChar(c) <==> 0x21 <= c as int <= 0x7E && !IsDelimiter(c)
  {
  }

  /** A media type is made of token characters and one slash, neither first nor last. */
  lemma MediaTypesExactly(s: string)
    ensures IsMediaType(s)
            <==> exists k :: && 0 < k < |s| - 1 && s[k] == '/'
                             && forall i :: 0 <= i < |s| && i != k ==> IsTokenChar(s[i])
  {
    if IsMediaType(s) {
      var k :| 0 <= k < |s| && s[k] == '/' && IsToken(s[..k]) && IsToken(s[k + 1..]);
      forall i | 0 <= i < |s| && i != k ensures IsTokenChar(s[i]) {
        assert if i < k then s[i] == s[..k][i] else s[i] == s[k + 1..][i - k - 1];
      }
      assert 0 < k < |s| - 1;
    }
    if k :| 0 < k < |s| - 1 && s[k] == '/' && forall i :: 0 <= i < |s| && i != k ==> IsTokenChar(s[i]) {
      var rest := s[k + 1..];
      assert forall i :: 0 <= i < |rest| ==> rest[i] == s[i + k + 1];
      assert IsToken(s[..k]) && IsToken(s[k + 1..]);
    }
  }

  // ---------------------------------------------------------------- the two scans of a quoted string

  /** Scanned from this mode on, the text leaves the quotes nowhere. */
  predicate StaysInside(s: string, mode: Mode) {
    forall k :: 0 <= k <= |s| ==> End(s[..k], mode) != Plain
  }

  lemma StaysInsideCons(s: string, mode: Mode)
    requires s != []
    ensures StaysInside(s, mode) <==> mode != Plain && StaysInside(s[1..], Next(mode, s[0]))
  {
    var rest, next := s[1..], Next(mode, s[0]);
    assert s[..0] == [];
    forall k | 0 < k <= |s| ensures End(s[..k], mode) == End(rest[..k - 1], next) {
      assert s[..k][1..] == rest[..k - 1] && s[..k][0] == s[0];
    }
    if StaysInside(s, mode) {
      assert End(s[..0], mode) != Plain;
      forall k | 0 <= k <= |rest| ensures End(rest[..k], next) != Plain {
        assert End(s[..k + 1], mode) == End(rest[..(k + 1) - 1], next);
      }
    }
  }

  lemma HasControlCons(s: string)
    requires s != []
    ensures HasControl(s) <==> IsControl(s[0]) || HasControl(s[1..])
  {
    if HasControl(s[1..]) {
      var i :| 0 <= i < |s[1..]| && IsControl(s[1..][i]);
      assert IsControl(s[i + 1]);
    }
    if HasControl(s) && !IsControl(s[0]) {
      var i :| 0 <= i < |s| && IsControl(s[i]);
      assert IsControl(s[1..][i - 1]);
    }
  }

  /** The test of a quoted body agrees with the scan that cut the text: a body is good exactly when it holds
      no control and the scan, started inside quotes, comes to its end inside them, having left them nowhere. */
  lemma {:induction false} QuotedBodyExactly(body: string)
    ensures IsQuotedBody(body) <==> !HasControl(body) && End(body, Quoted) == Quoted && StaysInside(body, Quoted)
    decreases |body|
  {
    if body == [] {
      assert body[..0] == [];
    } else {
      HasControlCons(body);
      StaysInsideCons(body, Quoted);
      if body[0] == '\\' {
        EscapedExactly(body);
        if |body| > 1 {
          QuotedBodyExactly(body[2..]);
        }
      } else if body[0] == '"' {
        assert body[1..][..0] == [];
      } else {
        QuotedBodyExactly(body[1..]);
      }
    }
  }

  /** Behind an escape. */
  lemma EscapedExactly(body: string)
    requires body != [] && body[0] == '\\'
    ensures |body| == 1 ==> End(body, Quoted) == Escaped
    ensures |body| > 1 ==> End(body, Quoted) == End(body[2..], Quoted)
    ensures |body| > 1 ==> (StaysInside(body[1..], Escaped) <==> StaysInside(body[2..], Quoted))
    ensures |body| > 1 ==> (HasControl(body[1..]) <==> IsControl(body[1]) || HasControl(body[2..]))
  {
    var rest := body[1..];
    if |body| > 1 {
      assert rest[0] == body[1] && rest[1..] == body[2..];
      StaysInsideCons(rest, Escaped);
      HasControlCons(rest);
    }
  }
}
