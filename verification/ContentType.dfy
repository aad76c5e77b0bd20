/** The Content-Type parser of `stage2_transport.py` (RFC 9110, sections 5.6.4, 5.6.6 and 8.3.1). */
module ContentType {
  import opened Prelude

  // ---------------------------------------------------------------- characters and case

  predicate IsControl(c: char) {
    (c as int < 0x20 && c != '\t') || c as int == 0x7F
  }

  predicate IsBlank(c: char) {
    c == ' ' || c == '\t'
  }

  predicate IsTokenChar(c: char) {
    || c in "!#$%&'*+.^_`|~-"
    || '0' <= c <= '9' || 'A' <= c <= 'Z' || 'a' <= c <= 'z'
  }

  predicate IsToken(s: string) {
    s != [] && forall i :: 0 <= i < |s| ==> IsTokenChar(s[i])
  }

  /** Two tokens around a slash. */
  predicate IsMediaType(s: string) {
    exists k :: 0 <= k < |s| && s[k] == '/' && IsToken(s[..k]) && IsToken(s[k + 1..])
  }

  function Lower(c: char): char {
    if 'A' <= c <= 'Z' then c - 'A' + 'a' else c
  }

  /** Case folding, character by character. */
  type Folding = char -> string

  function Fold(f: Folding, s: string): string {
    if s == [] then [] else f(s[0]) + Fold(f, s[1..])
  }

  /** What is known of the library's `casefold`: it lowers ASCII letters and nothing else of ASCII, and
      folding twice changes nothing. */
  ghost predicate IsFolding(f: Folding) {
    && (forall c: char :: c as int < 0x80 ==> f(c) == [Lower(c)])
    && forall c: char :: Fold(f, f(c)) == f(c)
  }

  // ---------------------------------------------------------------- quoting

  datatype Mode = Plain | Quoted | Escaped

  function Next(mode: Mode, c: char): Mode {
    if mode.Escaped? then Quoted
    else if mode.Quoted? && c == '\\' then Escaped
    else if c == '"' then (if mode.Quoted? then Plain else Quoted)
    else mode
  }

  function End(s: string, mode: Mode): Mode {
    if s == [] then mode else End(s[1..], Next(mode, s[0]))
  }

  function Prepend(prefix: string, pieces: seq<string>): seq<string>
    requires pieces != []
  {
    [prefix + pieces[0]] + pieces[1..]
  }

  /** The text cut at every semicolon outside quotes. */
  function Pieces(s: string, mode: Mode): (pieces: seq<string>)
    ensures pieces != []
  {
    if s == [] then [[]]
    else if mode.Plain? && s[0] == ';' then [[]] + Pieces(s[1..], Plain)
    else Prepend([s[0]], Pieces(s[1..], Next(mode, s[0])))
  }

  function StripLeft(s: string): string {
    if s != [] && IsBlank(s[0]) then StripLeft(s[1..]) else s
  }

  function StripRight(s: string): string {
    if s != [] && IsBlank(s[|s| - 1]) then StripRight(s[..|s| - 1]) else s
  }

  function Strip(s: string): string {
    StripRight(StripLeft(s))
  }

  function StripAll(pieces: seq<string>): seq<string> {
    if pieces == [] then [] else [Strip(pieces[0])] + StripAll(pieces[1..])
  }

  predicate HasControl(s: string) {
    exists i :: 0 <= i < |s| && IsControl(s[i])
  }

  /** The inside of a quoted string: escaped characters, and others but the quote. */
  predicate IsQuotedBody(s: string) {
    s == []
    || (if s[0] == '\\' then |s| > 1 && !IsControl(s[1]) && IsQuotedBody(s[2..])
        else s[0] != '"' && !IsControl(s[0]) && IsQuotedBody(s[1..]))
  }

  predicate InQuotes(v: string) {
    v != [] && v[0] == '"' && v[|v| - 1] == '"'
  }

  function Inner(v: string): string
    requires InQuotes(v)
  {
    if |v| == 1 then [] else v[1..|v| - 1]
  }

  predicate IsParameterValue(v: string) {
    if InQuotes(v) then IsQuotedBody(Inner(v)) else IsToken(v)
  }

  // ---------------------------------------------------------------- the parser

  datatype Parameter = Parameter(name: string, value: string)
  datatype Parsed = Parsed(media: string, parameters: seq<Parameter>)

  function IndexOf(s: string, c: char): (i: nat)
    requires c in s
    ensures i < |s| && s[i] == c && c !in s[..i]
  {
    if s[0] == c then 0 else 1 + IndexOf(s[1..], c)
  }

  function ParseParameter(f: Folding, raw: string): Option<Parameter> {
    if '=' !in raw then None
    else
      var at := IndexOf(raw, '=');
      var name, value := Fold(f, Strip(raw[..at])), Strip(raw[at + 1..]);
      if IsToken(name) && IsParameterValue(value) then Some(Parameter(name, value)) else None
  }

  function ParseParameters(f: Folding, raws: seq<string>, seen: set<string>): Result<seq<Parameter>>
    decreases |raws|
  {
    if raws == [] then Returned([])
    else
      var p := ParseParameter(f, raws[0]);
      if p.None? || p.value.name in seen then Raised
      else
        var rest := ParseParameters(f, raws[1..], seen + {p.value.name});
        if rest.Raised? then Raised else Returned([p.value] + rest.value)
  }

  function Split(value: string): Result<seq<string>> {
    if HasControl(value) || !End(value, Plain).Plain? then Raised else Returned(StripAll(Pieces(value, Plain)))
  }

  function Parse(f: Folding, value: string): Result<Parsed> {
    if Split(value).Raised? || Split(value).value == [] then Raised
    else
      var parts := Split(value).value;
      var media := Fold(f, parts[0]);
      var parameters := ParseParameters(f, parts[1..], {});
      if !IsMediaType(media) || parameters.Raised? then Raised else Returned(Parsed(media, parameters.value))
  }

  // ---------------------------------------------------------------- its loops

  /** The pieces still to come when the scan stands at `index` and the present piece began at `start`. */
  function Rest(value: string, start: nat, index: nat, mode: Mode): seq<string>
    requires start <= index <= |value|
  {
    Prepend(value[start..index], Pieces(value[index..], mode))
  }

  function Snoc(parts: seq<string>, pieces: seq<string>): seq<string> {
    parts + StripAll(pieces)
  }

  /** The first loop: one pass with `start`, `quoted` and `escaped`. */
  method SplitParts(value: string) returns (r: Result<seq<string>>)
    ensures r == Split(value)
  {
    var parts: seq<string> := [];
    var start := 0;
    var quoted, escaped := false, false;
    ghost var mode := Plain;
    NothingScanned(value);
    for index := 0 to |value|
      invariant start <= index
      invariant quoted == !mode.Plain? && escaped == mode.Escaped?
      invariant forall i :: 0 <= i < index ==> !IsControl(value[i])
      invariant Stands(value, parts, start, index, mode)
    {
      var c := value[index];
      if IsControl(c) {
        return Raised;
      }
      StandsOn(value, parts, start, index, mode);
      mode := Next(mode, c);
      if escaped {
        escaped := false;
      } else if quoted && c == '\\' {
        escaped := true;
      } else if c == '"' {
        quoted := !quoted;
      } else if c == ';' && !quoted {
        parts := parts + [Strip(value[start..index])];
        start := index + 1;
      }
    }
    StandsAtEnd(value, parts, start, mode);
    if quoted || escaped {
      return Raised;
    }
    parts := parts + [Strip(value[start..])];
    return Returned(parts);
  }

  /** Where the scan stands: behind `index`, with the parts cut off so far and the mode it is in. */
  predicate Stands(value: string, parts: seq<string>, start: nat, index: nat, mode: Mode)
    requires start <= index <= |value|
  {
    && End(value, Plain) == End(value[index..], mode)
    && StripAll(Pieces(value, Plain)) == Snoc(parts, Rest(value, start, index, mode))
  }

  lemma StandsOn(value: string, parts: seq<string>, start: nat, index: nat, mode: Mode)
    requires start <= index < |value| && Stands(value, parts, start, index, mode)
    ensures if mode.Plain? && value[index] == ';'
            then Stands(value, parts + [Strip(value[start..index])], index + 1, index + 1, Plain)
            else Stands(value, parts, start, index + 1, Next(mode, value[index]))
  {
    StepOfSplit(value, start, index, mode, parts);
  }

  lemma StandsAtEnd(value: string, parts: seq<string>, start: nat, mode: Mode)
    requires start <= |value| && Stands(value, parts, start, |value|, mode)
    ensures End(value, Plain) == mode
    ensures mode.Plain? ==> StripAll(Pieces(value, Plain)) == parts + [Strip(value[start..])]
  {
    assert value[|value|..] == [];
    LastPiece(parts, value, start);
  }

  lemma NothingScanned(value: string)
    ensures End(value[0..], Plain) == End(value, Plain)
    ensures Snoc([], Rest(value, 0, 0, Plain)) == StripAll(Pieces(value, Plain))
  {
    assert value[0..] == value && value[0..0] == [];
    ConcatNothing(Pieces(value, Plain)[0]);
    ConcatNothing(StripAll(Pieces(value, Plain)));
  }

  lemma LastPiece(parts: seq<string>, value: string, start: nat)
    requires start <= |value|
    ensures Snoc(parts, Rest(value, start, |value|, Plain)) == parts + [Strip(value[start..])]
  {
    assert value[|value|..] == [] && value[start..|value|] == value[start..];
    ConcatNothing(value[start..]);
    assert Prepend(value[start..], [[]]) == [value[start..]];
    assert StripAll([value[start..]]) == [Strip(value[start..])];
  }

  lemma StepOfSplit(value: string, start: nat, index: nat, mode: Mode, parts: seq<string>)
    requires start <= index < |value|
    ensures End(value[index..], mode) == End(value[index + 1..], Next(mode, value[index]))
    ensures Snoc(parts, Rest(value, start, index, mode))
            == if mode.Plain? && value[index] == ';'
               then Snoc(parts + [Strip(value[start..index])], Rest(value, index + 1, index + 1, Plain))
               else Snoc(parts, Rest(value, start, index + 1, Next(mode, value[index])))
  {
    if mode.Plain? && value[index] == ';' {
      StepOverCut(value, start, index, parts);
    } else {
      StepInPiece(value, start, index, mode);
    }
  }

  lemma RestAfter(value: string, index: nat)
    requires index < |value|
    ensures value[index..] != [] && value[index..][0] == value[index] && value[index..][1..] == value[index + 1..]
  {
  }

  lemma StepOverCut(value: string, start: nat, index: nat, parts: seq<string>)
    requires start <= index < |value| && value[index] == ';'
    ensures End(value[index..], Plain) == End(value[index + 1..], Plain)
    ensures Snoc(parts, Rest(value, start, index, Plain))
            == Snoc(parts + [Strip(value[start..index])], Rest(value, index + 1, index + 1, Plain))
  {
    var piece, more := value[start..index], Pieces(value[index + 1..], Plain);
    RestAfter(value, index);
    PrependToEmpty(piece, more);
    PrependNothing(more);
    CutOff(parts, piece, more);
  }

  lemma PrependNothing(more: seq<string>)
    requires more != []
    ensures Prepend([], more) == more
  {
    ConcatNothing(more[0]);
  }

  lemma StepInPiece(value: string, start: nat, index: nat, mode: Mode)
    requires start <= index < |value| && !(mode.Plain? && value[index] == ';')
    ensures End(value[index..], mode) == End(value[index + 1..], Next(mode, value[index]))
    ensures Rest(value, start, index, mode) == Rest(value, start, index + 1, Next(mode, value[index]))
  {
    RestAfter(value, index);
    PrependTwice(value[start..index], [value[index]], Pieces(value[index + 1..], Next(mode, value[index])));
    assert value[start..index] + [value[index]] == value[start..index + 1];
  }

  lemma CutOff(parts: seq<string>, piece: string, more: seq<string>)
    ensures Snoc(parts, [piece] + more) == Snoc(parts + [Strip(piece)], more)
  {
    assert ([piece] + more)[1..] == more;
    ConcatAssociates(parts, [Strip(piece)], StripAll(more));
  }

  lemma PrependTwice(a: string, b: string, pieces: seq<string>)
    requires pieces != []
    ensures Prepend(a, Prepend(b, pieces)) == Prepend(a + b, pieces)
  {
    ConcatAssociates(a, b, pieces[0]);
  }

  /** The loop over the inside of a quoted value. */
  method AcceptsQuotedBody(inner: string) returns (valid: bool)
    ensures valid == IsQuotedBody(inner)
  {
    var position := 0;
    while position < |inner|
      invariant position <= |inner| && IsQuotedBody(inner) == IsQuotedBody(inner[position..])
    {
      var rest := inner[position..];
      assert rest[0] == inner[position]
             && (|rest| > 1 ==> rest[1] == inner[position + 1] && rest[2..] == inner[position + 2..]);
      assert rest[1..] == inner[position + 1..];
      if inner[position] == '\\' {
        position := position + 1;
        if position == |inner| {
          return false;
        }
        if IsControl(inner[position]) {
          return false;
        }
      } else if inner[position] == '"' || IsControl(inner[position]) {
        return false;
      }
      position := position + 1;
    }
    return true;
  }

  /** One raw parameter. */
  method ReadParameter(f: Folding, raw: string) returns (r: Option<Parameter>)
    ensures r == ParseParameter(f, raw)
  {
    if '=' !in raw {
      return None;
    }
    var at := IndexOf(raw, '=');
    var name, value := Fold(f, Strip(raw[..at])), Strip(raw[at + 1..]);
    var validValue := IsToken(value);
    if InQuotes(value) {
      validValue := AcceptsQuotedBody(Inner(value));
    }
    if !IsToken(name) || !validValue {
      return None;
    }
    return Some(Parameter(name, value));
  }

  /** The loop over the raw parameters, with the names seen so far. */
  method CollectParameters(f: Folding, raws: seq<string>) returns (r: Result<seq<Parameter>>)
    ensures r == ParseParameters(f, raws, {})
  {
    var parameters: seq<Parameter> := [];
    var seen: set<string> := {};
    assert raws[0..] == raws;
    AheadNothing(ParseParameters(f, raws, {}));
    for i := 0 to |raws|
      invariant ParseParameters(f, raws, {}) == Ahead(parameters, ParseParameters(f, raws[i..], seen))
    {
      assert raws[i..][0] == raws[i] && raws[i..][1..] == raws[i + 1..];
      var parameter := ReadParameter(f, raws[i]);
      if parameter.None? || parameter.value.name in seen {
        return Raised;
      }
      AheadStep(parameters, parameter.value, ParseParameters(f, raws[i + 1..], seen + {parameter.value.name}));
      seen := seen + {parameter.value.name};
      parameters := parameters + [parameter.value];
    }
    ConcatNothing(parameters);
    return Returned(parameters);
  }

  function Ahead(done: seq<Parameter>, rest: Result<seq<Parameter>>): Result<seq<Parameter>> {
    if rest.Raised? then Raised else Returned(done + rest.value)
  }

  lemma AheadNothing(rest: Result<seq<Parameter>>)
    ensures Ahead([], rest) == rest
  {
    if rest.Returned? {
      ConcatNothing(rest.value);
    }
  }

  lemma AheadStep(done: seq<Parameter>, p: Parameter, rest: Result<seq<Parameter>>)
    ensures Ahead(done, Ahead([p], rest)) == Ahead(done + [p], rest)
  {
    if rest.Returned? {
      ConcatAssociates(done, [p], rest.value);
    }
  }

  method ParseContentType(f: Folding, value: string) returns (r: Result<Parsed>)
    ensures r == Parse(f, value)
  {
    var parts := SplitParts(value);
    if parts.Raised? || parts.value == [] {
      return Raised;
    }
    var media := Fold(f, parts.value[0]);
    if !IsMediaType(media) {
      return Raised;
    }
    var parameters := CollectParameters(f, parts.value[1..]);
    if parameters.Raised? {
      return Raised;
    }
    return Returned(Parsed(media, parameters.value));
  }

  // ---------------------------------------------------------------- scanning text in parts

  lemma {:induction false} EndOfBoth(a: string, b: string, mode: Mode)
    ensures End(a + b, mode) == End(b, End(a, mode))
  {
    if a == [] {
      assert a + b == b;
    } else {
      assert (a + b)[1..] == a[1..] + b;
      EndOfBoth(a[1..], b, Next(mode, a[0]));
    }
  }

  /** Scanned from this mode on, the text holds no semicolon outside quotes. */
  predicate Uncut(s: string, mode: Mode) {
    s == [] || (!(mode.Plain? && s[0] == ';') && Uncut(s[1..], Next(mode, s[0])))
  }

  lemma {:induction false} UncutTogether(a: string, b: string, mode: Mode)
    requires Uncut(a, mode) && Uncut(b, End(a, mode))
    ensures Uncut(a + b, mode)
  {
    if a == [] {
      assert a + b == b;
    } else {
      assert (a + b)[1..] == a[1..] + b;
      UncutTogether(a[1..], b, Next(mode, a[0]));
    }
  }

  /** A text without a cut stays together, whatever follows it. */
  lemma {:induction false} PiecesBehind(a: string, b: string, mode: Mode)
    requires Uncut(a, mode)
    ensures Pieces(a + b, mode) == Prepend(a, Pieces(b, End(a, mode)))
  {
    if a == [] {
      assert a + b == b;
      ConcatNothing(Pieces(b, mode)[0]);
    } else {
      assert (a + b)[1..] == a[1..] + b;
      PiecesBehind(a[1..], b, Next(mode, a[0]));
      PrependTwice([a[0]], a[1..], Pieces(b, End(a, mode)));
      assert [a[0]] + a[1..] == a;
    }
  }

  predicate NoQuoteNorCut(s: string) {
    forall i :: 0 <= i < |s| ==> s[i] != '"' && s[i] != ';'
  }

  lemma {:induction false} PlainTextIsInert(s: string)
    requires NoQuoteNorCut(s)
    ensures Uncut(s, Plain) && End(s, Plain) == Plain
  {
    if s != [] {
      PlainTextIsInert(s[1..]);
    }
  }

  /** Semicolons and escaped quotes inside quotes neither cut the text nor end the quoting. */
  lemma {:induction false} QuotedBodyIsInert(body: string)
    requires IsQuotedBody(body)
    ensures Uncut(body + ['"'], Quoted) && End(body + ['"'], Quoted) == Plain
  {
    var all := body + ['"'];
    if body == [] {
      assert all == ['"'] && all[1..] == [];
    } else if body[0] == '\\' {
      QuotedBodyIsInert(body[2..]);
      assert all[1..][1..] == body[2..] + ['"'] && all[1..][0] == body[1];
    } else {
      QuotedBodyIsInert(body[1..]);
      assert all[1..] == body[1..] + ['"'];
    }
  }

  /** A value the parser can return: a token, or a quoted string with its two quotes. */
  predicate IsValue(v: string) {
    IsParameterValue(v) && v != ['"']
  }

  lemma TokensArePlain(s: string)
    requires IsToken(s)
    ensures NoQuoteNorCut(s) && '=' !in s && !HasControl(s) && !IsBlank(s[0]) && !IsBlank(s[|s| - 1])
  {
  }

  lemma ValueIsInert(v: string)
    requires IsValue(v)
    ensures Uncut(v, Plain) && End(v, Plain) == Plain
  {
    if InQuotes(v) {
      QuotedBodyIsInert(Inner(v));
      assert v[1..] == Inner(v) + ['"'];
    } else {
      TokensArePlain(v);
      PlainTextIsInert(v);
    }
  }

  lemma {:induction false} BodyHasNoControl(body: string)
    requires IsQuotedBody(body)
    ensures !HasControl(body)
  {
    if body != [] {
      if body[0] == '\\' {
        BodyHasNoControl(body[2..]);
        assert forall i :: 2 <= i < |body| ==> body[i] == body[2..][i - 2];
      } else {
        BodyHasNoControl(body[1..]);
        assert forall i :: 1 <= i < |body| ==> body[i] == body[1..][i - 1];
      }
    }
  }

  lemma ValueIsClean(v: string)
    requires IsValue(v)
    ensures v != [] && !HasControl(v) && !IsBlank(v[0]) && !IsBlank(v[|v| - 1])
  {
    if InQuotes(v) {
      BodyHasNoControl(Inner(v));
      assert forall i :: 0 < i < |v| - 1 ==> v[i] == Inner(v)[i - 1];
    } else {
      TokensArePlain(v);
    }
  }

  // ---------------------------------------------------------------- rendering

  function RenderOne(p: Parameter): string {
    p.name + ['='] + p.value
  }

  function Spaced(p: Parameter): string {
    [' '] + RenderOne(p)
  }

  function RenderTail(parameters: seq<Parameter>): string {
    if parameters == [] then [] else [';'] + (Spaced(parameters[0]) + RenderTail(parameters[1..]))
  }

  function Render(parsed: Parsed): string {
    parsed.media + RenderTail(parsed.parameters)
  }

  predicate IsParameter(f: Folding, p: Parameter) {
    IsToken(p.name) && Fold(f, p.name) == p.name && IsValue(p.value)
  }

  /** What the parser can return: folded token names, all different, with well-formed values. */
  predicate IsNormal(f: Folding, parsed: Parsed) {
    && IsMediaType(parsed.media) && Fold(f, parsed.media) == parsed.media
    && (forall i :: 0 <= i < |parsed.parameters| ==> IsParameter(f, parsed.parameters[i]))
    && forall i, j :: 0 <= i < j < |parsed.parameters| ==> parsed.parameters[i].name != parsed.parameters[j].name
  }

  /** A rendered parameter with the blank before it: it stays in one piece, whatever its value quotes. */
  lemma ParameterIsInert(f: Folding, p: Parameter)
    requires IsParameter(f, p)
    ensures Uncut(Spaced(p), Plain) && End(Spaced(p), Plain) == Plain
  {
    var front := [' '] + (p.name + ['=']);
    ConcatAssociates([' '], p.name + ['='], p.value);
    FrontIsInert(p.name);
    ValueIsInert(p.value);
    UncutTogether(front, p.value, Plain);
    EndOfBoth(front, p.value, Plain);
  }

  lemma FrontIsInert(name: string)
    requires IsToken(name)
    ensures Uncut([' '] + (name + ['=']), Plain) && End([' '] + (name + ['=']), Plain) == Plain
  {
    TokensArePlain(name);
    PlainTextIsInert([' '] + (name + ['=']));
  }

  lemma ParameterIsClean(f: Folding, p: Parameter)
    requires IsParameter(f, p)
    ensures !HasControl(Spaced(p))
  {
    TokensArePlain(p.name);
    ValueIsClean(p.value);
    CleanTogether(p.name, ['=']);
    CleanTogether(p.name + ['='], p.value);
    CleanTogether([' '], RenderOne(p));
  }

  lemma ParameterIsStripped(f: Folding, p: Parameter)
    requires IsParameter(f, p)
    ensures Strip(Spaced(p)) == RenderOne(p)
  {
    TokensArePlain(p.name);
    ValueIsClean(p.value);
    var text := RenderOne(p);
    assert text[0] == p.name[0] && text[|text| - 1] == p.value[|p.value| - 1];
    StripBlank(text);
  }

  lemma StripBlank(s: string)
    requires s != [] && !IsBlank(s[0]) && !IsBlank(s[|s| - 1])
    ensures Strip([' '] + s) == s && Strip(s) == s
  {
    var spaced := [' '] + s;
    assert spaced[0] == ' ' && spaced[1..] == s;
    assert StripLeft(spaced) == StripLeft(s) == s;
    assert StripRight(s) == s;
  }

  function RawParameters(parameters: seq<Parameter>): seq<string> {
    if parameters == [] then [] else [Spaced(parameters[0])] + RawParameters(parameters[1..])
  }

  lemma {:induction false} TailIsCut(f: Folding, parameters: seq<Parameter>)
    requires forall i :: 0 <= i < |parameters| ==> IsParameter(f, parameters[i])
    ensures Pieces(RenderTail(parameters), Plain) == [[]] + RawParameters(parameters)
    ensures End(RenderTail(parameters), Plain) == Plain
  {
    if parameters != [] {
      var text, rest := Spaced(parameters[0]), RenderTail(parameters[1..]);
      TailIsCut(f, parameters[1..]);
      ParameterIsInert(f, parameters[0]);
      TailUnfolds(parameters);
      PiecesBehind(text, rest, Plain);
      EndOfBoth(text, rest, Plain);
      PrependToEmpty(text, RawParameters(parameters[1..]));
    }
  }

  lemma TailUnfolds(parameters: seq<Parameter>)
    requires parameters != []
    ensures var tail := RenderTail(parameters);
            tail != [] && tail[0] == ';' && tail[1..] == Spaced(parameters[0]) + RenderTail(parameters[1..])
  {
  }

  lemma PrependToEmpty(text: string, raws: seq<string>)
    ensures Prepend(text, [[]] + raws) == [text] + raws
  {
    ConcatNothing(text);
    assert ([[]] + raws)[1..] == raws;
  }

  lemma {:induction false} TailIsClean(f: Folding, parameters: seq<Parameter>)
    requires forall i :: 0 <= i < |parameters| ==> IsParameter(f, parameters[i])
    ensures !HasControl(RenderTail(parameters))
  {
    if parameters != [] {
      TailIsClean(f, parameters[1..]);
      ParameterIsClean(f, parameters[0]);
      TailUnfolds(parameters);
      CleanTogether(Spaced(parameters[0]), RenderTail(parameters[1..]));
      CleanTogether([';'], RenderTail(parameters)[1..]);
      assert RenderTail(parameters) == [';'] + RenderTail(parameters)[1..];
    }
  }

  lemma CleanTogether(a: string, b: string)
    requires !HasControl(a) && !HasControl(b)
    ensures !HasControl(a + b)
  {
  }

  lemma {:induction false} StrippedRaw(f: Folding, parameters: seq<Parameter>)
    requires forall i :: 0 <= i < |parameters| ==> IsParameter(f, parameters[i])
    ensures |StripAll(RawParameters(parameters))| == |parameters|
    ensures forall i :: 0 <= i < |parameters| ==> StripAll(RawParameters(parameters))[i] == RenderOne(parameters[i])
  {
    if parameters != [] {
      ParameterIsStripped(f, parameters[0]);
      StrippedRaw(f, parameters[1..]);
      assert RawParameters(parameters)[1..] == RawParameters(parameters[1..]);
    }
  }

  lemma {:induction false} IndexBehind(a: string, c: char, b: string)
    requires c !in a
    ensures c in a + [c] + b && IndexOf(a + [c] + b, c) == |a|
  {
    var all := a + [c] + b;
    assert all[|a|] == c;
    if a != [] {
      IndexBehind(a[1..], c, b);
      assert all[1..] == a[1..] + [c] + b && all[0] == a[0];
      assert a[0] in a;
    }
  }

  lemma AroundIndex(a: string, c: char, b: string)
    ensures (a + [c] + b)[..|a|] == a && (a + [c] + b)[|a| + 1..] == b
  {
  }

  /** A rendered parameter reads back as itself. */
  lemma ParameterRoundTrip(f: Folding, p: Parameter)
    requires IsParameter(f, p)
    ensures ParseParameter(f, RenderOne(p)) == Some(p)
  {
    NameAndValueStrip(p.name, p.value);
    ParseAround(f, p.name, p.value);
  }

  lemma NameAndValueStrip(name: string, value: string)
    requires IsToken(name) && IsValue(value)
    ensures '=' !in name && Strip(name) == name && Strip(value) == value
  {
    TokensArePlain(name);
    ValueIsClean(value);
    StripBlank(name);
    StripBlank(value);
  }

  /** Parsing looks at what stands before the first equals sign and behind it. */
  lemma ParseAround(f: Folding, name: string, value: string)
    requires '=' !in name
    ensures ParseParameter(f, name + ['='] + value)
            == if IsToken(Fold(f, Strip(name))) && IsParameterValue(Strip(value))
               then Some(Parameter(Fold(f, Strip(name)), Strip(value)))
               else None
  {
    IndexBehind(name, '=', value);
    AroundIndex(name, '=', value);
  }

  lemma {:induction false} ParametersRoundTrip(
    f: Folding, raws: seq<string>, parameters: seq<Parameter>, seen: set<string>)
    requires |raws| == |parameters|
    requires forall i :: 0 <= i < |raws| ==> IsParameter(f, parameters[i]) && raws[i] == RenderOne(parameters[i])
    requires forall i :: 0 <= i < |raws| ==> parameters[i].name !in seen
    requires forall i, j :: 0 <= i < j < |raws| ==> parameters[i].name != parameters[j].name
    ensures ParseParameters(f, raws, seen) == Returned(parameters)
    decreases |raws|
  {
    if raws != [] {
      ParameterRoundTrip(f, parameters[0]);
      ParametersRoundTrip(f, raws[1..], parameters[1..], seen + {parameters[0].name});
      assert [parameters[0]] + parameters[1..] == parameters;
    }
  }

  // ---------------------------------------------------------------- parse and render undo each other

  lemma TokenTextIsClean(s: string)
    requires forall i :: 0 <= i < |s| ==> IsTokenChar(s[i]) || s[i] == '/'
    ensures NoQuoteNorCut(s) && !HasControl(s)
  {
  }

  lemma MediaTypeIsClean(media: string)
    requires IsMediaType(media)
    ensures NoQuoteNorCut(media) && !HasControl(media) && media != []
    ensures !IsBlank(media[0]) && !IsBlank(media[|media| - 1])
  {
    var k :| 0 <= k < |media| && media[k] == '/' && IsToken(media[..k]) && IsToken(media[k + 1..]);
    forall i | 0 <= i < |media| && i != k ensures IsTokenChar(media[i]) {
      assert if i < k then media[i] == media[..k][i] else media[i] == media[k + 1..][i - k - 1];
    }
    assert k > 0 && k < |media| - 1;
    TokenTextIsClean(media);
  }

  lemma RenderedIsSplit(f: Folding, parsed: Parsed)
    requires IsNormal(f, parsed)
    ensures Split(Render(parsed)) == Returned([parsed.media] + StripAll(RawParameters(parsed.parameters)))
  {
    var tail := RenderTail(parsed.parameters);
    MediaTypeIsClean(parsed.media);
    PlainTextIsInert(parsed.media);
    TailIsCut(f, parsed.parameters);
    TailIsClean(f, parsed.parameters);
    CleanTogether(parsed.media, tail);
    EndOfBoth(parsed.media, tail, Plain);
    PiecesBehind(parsed.media, tail, Plain);
    PrependToEmpty(parsed.media, RawParameters(parsed.parameters));
    StripBlank(parsed.media);
    CutOff([], parsed.media, RawParameters(parsed.parameters));
    StripHead(parsed.media, RawParameters(parsed.parameters));
  }

  lemma StripHead(piece: string, more: seq<string>)
    ensures StripAll([piece] + more) == [Strip(piece)] + StripAll(more)
  {
    assert ([piece] + more)[1..] == more;
  }

  /** Rendering what the parser can return and parsing it again gives it back. */
  lemma ParseUndoesRender(f: Folding, parsed: Parsed)
    requires IsNormal(f, parsed)
    ensures Parse(f, Render(parsed)) == Returned(parsed)
  {
    RenderedIsSplit(f, parsed);
    var raws := StripAll(RawParameters(parsed.parameters));
    StrippedRaw(f, parsed.parameters);
    ParametersRoundTrip(f, raws, parsed.parameters, {});
    assert ([parsed.media] + raws)[1..] == raws;
  }

  // ---------------------------------------------------------------- what the parser returns is normal

  lemma {:induction false} FoldOfBoth(f: Folding, a: string, b: string)
    ensures Fold(f, a + b) == Fold(f, a) + Fold(f, b)
  {
    if a == [] {
      assert a + b == b;
    } else {
      assert (a + b)[1..] == a[1..] + b;
      FoldOfBoth(f, a[1..], b);
      ConcatAssociates(f(a[0]), Fold(f, a[1..]), Fold(f, b));
    }
  }

  lemma {:induction false} FoldTwice(f: Folding, s: string)
    requires IsFolding(f)
    ensures Fold(f, Fold(f, s)) == Fold(f, s)
  {
    if s != [] {
      FoldTwice(f, s[1..]);
      FoldOfBoth(f, f(s[0]), Fold(f, s[1..]));
    }
  }

  /** A quote is never folded away. */
  lemma {:induction false} FoldKeepsQuotes(f: Folding, s: string)
    requires IsFolding(f) && '"' in s
    ensures '"' in Fold(f, s)
  {
    if s[0] == '"' {
      assert f('"') == [Lower('"')];
      assert Fold(f, s)[0] == '"';
    } else {
      FoldKeepsQuotes(f, s[1..]);
    }
  }

  /** Every piece of a text whose quotes are closed has its own quotes closed. */
  lemma {:induction false} PiecesAreClosed(s: string, mode: Mode)
    requires End(s, mode) == Plain
    ensures End(Pieces(s, mode)[0], mode) == Plain
    ensures forall k :: 0 < k < |Pieces(s, mode)| ==> End(Pieces(s, mode)[k], Plain) == Plain
  {
    if s != [] {
      var next := Next(mode, s[0]);
      PiecesAreClosed(s[1..], next);
      if !(mode.Plain? && s[0] == ';') {
        var rest := Pieces(s[1..], next);
        assert ([s[0]] + rest[0])[1..] == rest[0];
      }
    }
  }

  lemma {:induction false} StripLeftClosed(s: string)
    requires End(s, Plain) == Plain
    ensures End(StripLeft(s), Plain) == Plain
  {
    if s != [] && IsBlank(s[0]) {
      StripLeftClosed(s[1..]);
    }
  }

  lemma {:induction false} StripRightClosed(s: string)
    requires End(s, Plain) == Plain
    ensures End(StripRight(s), Plain) == Plain
  {
    if s != [] && IsBlank(s[|s| - 1]) {
      var init, last := s[..|s| - 1], s[|s| - 1];
      assert s == init + [last] && [last][1..] == [];
      EndOfBoth(init, [last], Plain);
      assert End([last], End(init, Plain)) == Next(End(init, Plain), last);
      StripRightClosed(init);
    }
  }

  lemma StripClosed(s: string)
    requires End(s, Plain) == Plain
    ensures End(Strip(s), Plain) == Plain
  {
    StripLeftClosed(s);
    StripRightClosed(StripLeft(s));
  }

  lemma {:induction false} StripAllClosed(pieces: seq<string>)
    requires forall k :: 0 <= k < |pieces| ==> End(pieces[k], Plain) == Plain
    ensures forall k :: 0 <= k < |StripAll(pieces)| ==> End(StripAll(pieces)[k], Plain) == Plain
  {
    if pieces != [] {
      StripClosed(pieces[0]);
      StripAllClosed(pieces[1..]);
    }
  }

  lemma StripKeepsQuotes(s: string)
    requires '"' in s
    ensures '"' in Strip(s)
  {
    StripLeftKeepsQuotes(s);
    StripRightKeepsQuotes(StripLeft(s));
  }

  lemma {:induction false} StripLeftKeepsQuotes(s: string)
    requires '"' in s
    ensures '"' in StripLeft(s)
  {
    if IsBlank(s[0]) {
      StripLeftKeepsQuotes(s[1..]);
    }
  }

  lemma {:induction false} StripRightKeepsQuotes(s: string)
    requires '"' in s
    ensures '"' in StripRight(s)
  {
    if IsBlank(s[|s| - 1]) {
      StripRightKeepsQuotes(s[..|s| - 1]);
    }
  }

  lemma {:induction false} NoQuotesStayPlain(s: string)
    requires '"' !in s
    ensures End(s, Plain) == Plain
  {
    if s != [] {
      NoQuotesStayPlain(s[1..]);
    }
  }

  /** A parameter read from a piece whose quotes are closed: its value is not a lone quote. */
  lemma ReadParameterIsNormal(f: Folding, raw: string)
    requires IsFolding(f) && End(raw, Plain) == Plain && ParseParameter(f, raw).Some?
    ensures IsParameter(f, ParseParameter(f, raw).value)
  {
    var at := IndexOf(raw, '=');
    var name, value := Strip(raw[..at]), Strip(raw[at + 1..]);
    FoldTwice(f, name);
    TokensArePlain(Fold(f, name));
    if '"' in raw[..at] {
      StripKeepsQuotes(raw[..at]);
      FoldKeepsQuotes(f, name);
    }
    SidesAreClosed(raw, at);
    StripClosed(raw[at + 1..]);
    LoneQuoteIsOpen();
  }

  lemma LoneQuoteIsOpen()
    ensures End(['"'], Plain) == Quoted
  {
    assert ['"'][1..] == [];
  }

  lemma SidesAreClosed(raw: string, at: nat)
    requires at < |raw| && raw[at] == '=' && '"' !in raw[..at] && End(raw, Plain) == Plain
    ensures End(raw[at + 1..], Plain) == Plain
  {
    var before, behind := raw[..at] + ['='], raw[at + 1..];
    assert raw == before + behind;
    NoQuotesStayPlain(before);
    EndOfBoth(before, behind, Plain);
  }

  lemma {:induction false} ReadParametersAreNormal(f: Folding, raws: seq<string>, seen: set<string>)
    requires IsFolding(f) && ParseParameters(f, raws, seen).Returned?
    requires forall k :: 0 <= k < |raws| ==> End(raws[k], Plain) == Plain
    ensures var ps := ParseParameters(f, raws, seen).value;
            && (forall i :: 0 <= i < |ps| ==> IsParameter(f, ps[i]) && ps[i].name !in seen)
            && forall i, j :: 0 <= i < j < |ps| ==> ps[i].name != ps[j].name
    decreases |raws|
  {
    if raws != [] {
      var p := ParseParameter(f, raws[0]).value;
      ReadParameterIsNormal(f, raws[0]);
      ReadParametersAreNormal(f, raws[1..], seen + {p.name});
      OneMoreParameter(f, p, ParseParameters(f, raws[1..], seen + {p.name}).value, seen);
    }
  }

  lemma OneMoreParameter(f: Folding, p: Parameter, rest: seq<Parameter>, seen: set<string>)
    requires IsParameter(f, p) && p.name !in seen
    requires forall i :: 0 <= i < |rest| ==> IsParameter(f, rest[i]) && rest[i].name !in seen + {p.name}
    requires forall i, j :: 0 <= i < j < |rest| ==> rest[i].name != rest[j].name
    ensures forall i :: 0 <= i < |[p] + rest| ==> IsParameter(f, ([p] + rest)[i]) && ([p] + rest)[i].name !in seen
    ensures forall i, j :: 0 <= i < j < |[p] + rest| ==> ([p] + rest)[i].name != ([p] + rest)[j].name
  {
  }

  /** Whatever the text, what the parser returns is normal. */
  lemma ParsedIsNormal(f: Folding, value: string)
    requires IsFolding(f) && Parse(f, value).Returned?
    ensures IsNormal(f, Parse(f, value).value)
  {
    var parts := Split(value).value;
    PiecesAreClosed(value, Plain);
    StripAllClosed(Pieces(value, Plain));
    FoldTwice(f, parts[0]);
    assert forall k :: 0 <= k < |parts| - 1 ==> parts[1..][k] == parts[k + 1];
    ReadParametersAreNormal(f, parts[1..], {});
  }

  /** Parsing is stable: rendering any accepted text's result and parsing it again gives the same. */
  lemma ReparseIsStable(f: Folding, value: string)
    requires IsFolding(f) && Parse(f, value).Returned?
    ensures Parse(f, Render(Parse(f, value).value)) == Parse(f, value)
  {
    ParsedIsNormal(f, value);
    ParseUndoesRender(f, Parse(f, value).value);
  }

  /** Rendering comes back exactly for what the parser can return. */
  lemma RenderRoundTripsExactly(f: Folding, parsed: Parsed)
    requires IsFolding(f)
    ensures Parse(f, Render(parsed)) == Returned(parsed) <==> IsNormal(f, parsed)
  {
    if IsNormal(f, parsed) {
      ParseUndoesRender(f, parsed);
    } else if Parse(f, Render(parsed)) == Returned(parsed) {
      ParsedIsNormal(f, Render(parsed));
    }
  }

  /** A quoted value stays whole whatever it quotes: one parameter, one piece, for every body. */
  lemma QuotedValueNeverSplits(f: Folding, media: string, name: string, body: string)
    requires IsMediaType(media) && Fold(f, media) == media && IsToken(name) && Fold(f, name) == name
             && IsQuotedBody(body)
    ensures Parse(f, media + ([';'] + ([' '] + (name + ['='] + (['"'] + body + ['"'])))))
            == Returned(Parsed(media, [Parameter(name, ['"'] + body + ['"'])]))
  {
    var p := Parameter(name, ['"'] + body + ['"']);
    assert Inner(p.value) == body;
    OneTail(p);
    ParseUndoesRender(f, Parsed(media, [p]));
  }

  lemma OneTail(p: Parameter)
    ensures RenderTail([p]) == [';'] + ([' '] + (p.name + ['='] + p.value))
  {
    assert [p][1..] == [];
    ConcatNothing(Spaced(p));
  }
}
