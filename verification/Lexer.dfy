/** The HAR lexer: what the lexeme at an offset is, the scanning loop, and what it returns. */
module Lexer {
  import opened Wrappers
  import opened Bytes

  datatype Symbol = LBrace | RBrace | LBracket | RBracket | LParen | RParen | Semicolon | Comma | Colon | DotDot

  datatype TokenKind = Ident(text: string) | Str(text: string) | Number(text: string) | Sym(symbol: Symbol) | Eof

  datatype Span = Span(start: int, end: int, line: int, column: int)

  datatype Token = Token(kind: TokenKind, span: Span)

  datatype LexCode = UnexpectedCharacter | NewlineInString | UnterminatedString  // L0001, L0003, L0004

  datatype LexError = LexError(code: LexCode, span: Span)

  const NEWLINE: byte := 10
  const DOT: byte := 46
  const SLASH: byte := 47
  const QUOTE: byte := 34
  const BACKSLASH: byte := 92

  // ---- byte classes -----------------------------------------------------------

  predicate IsSpace(b: byte) { b == 32 || b == 9 || b == 10 || b == 12 || b == 13 }

  predicate IsLetter(b: byte) { 65 <= b <= 90 || 97 <= b <= 122 }

  predicate IsWordStart(b: byte) { IsLetter(b) || b == 95 }

  predicate IsWordByte(b: byte) { IsLetter(b) || IsDigit(b) || b == 95 || b == 45 }

  predicate NotNewline(b: byte) { b != NEWLINE }

  function At(s: seq<byte>, i: nat): Option<byte> {
    if i < |s| then Some(s[i]) else None
  }

  /** Where the run of bytes satisfying p that starts at i ends. */
  function RunEnd(s: seq<byte>, i: nat, p: byte -> bool): (n: nat)
    requires i <= |s|
    ensures i <= n <= |s|
    decreases |s| - i
  {
    if i < |s| && p(s[i]) then RunEnd(s, i + 1, p) else i
  }

  function SymbolOf(b: byte, next: Option<byte>): Option<(Symbol, nat)> {
    if b == 123 then Some((LBrace, 1))
    else if b == 125 then Some((RBrace, 1))
    else if b == 91 then Some((LBracket, 1))
    else if b == 93 then Some((RBracket, 1))
    else if b == 40 then Some((LParen, 1))
    else if b == 41 then Some((RParen, 1))
    else if b == 59 then Some((Semicolon, 1))
    else if b == 44 then Some((Comma, 1))
    else if b == 58 then Some((Colon, 1))
    else if b == DOT && next == Some(DOT) then Some((DotDot, 2))
    else None
  }

  // ---- numbers ----------------------------------------------------------------

  predicate StartsNumber(s: seq<byte>, i: nat)
    requires i < |s|
  {
    IsDigit(s[i]) || (s[i] == DOT && i + 1 < |s| && IsDigit(s[i + 1]))
  }

  /** A fraction follows unless the dot begins a range. */
  function FractionEnd(s: seq<byte>, i: nat): (n: nat)
    requires i <= |s|
    ensures i <= n <= |s|
  {
    if At(s, i) == Some(DOT) && At(s, i + 1) != Some(DOT) then RunEnd(s, i + 1, IsDigit) else i
  }

  function SignEnd(s: seq<byte>, i: nat): (n: nat)
    requires i <= |s|
    ensures i <= n <= |s|
  {
    if At(s, i) == Some(43) || At(s, i) == Some(45) then i + 1 else i
  }

  function ExponentEnd(s: seq<byte>, i: nat): (n: nat)
    requires i <= |s|
    ensures i <= n <= |s|
  {
    if At(s, i) == Some(101) || At(s, i) == Some(69) then RunEnd(s, SignEnd(s, i + 1), IsDigit) else i
  }

  function NumberEnd(s: seq<byte>, i: nat): (n: nat)
    requires i < |s|
    ensures i < n <= |s|
  {
    ExponentEnd(s, FractionEnd(s, RunEnd(s, i + 1, IsDigit)))
  }

  // ---- positions --------------------------------------------------------------

  /** One more than the newlines before offset i. */
  function LineAt(s: seq<byte>, i: nat): int
    requires i <= |s|
  {
    if i == 0 then 1 else LineAt(s, i - 1) + (if s[i - 1] == NEWLINE then 1 else 0)
  }

  /** One more than the distance to the last line start before offset i. */
  function ColumnAt(s: seq<byte>, i: nat): int
    requires i <= |s|
  {
    if i == 0 || s[i - 1] == NEWLINE then 1 else ColumnAt(s, i - 1) + 1
  }

  function SpanOf(s: seq<byte>, start: nat, end: int): Span
    requires start <= |s|
  {
    Span(start, end, LineAt(s, start), ColumnAt(s, start))
  }

  // ---- strings ----------------------------------------------------------------

  function Unescape(b: byte): char {
    if b == 110 then '\n' else if b == 114 then '\r' else if b == 116 then '\t' else b as char
  }

  /** What the string loop collects: the value, where it stops, and its errors. */
  datatype StringBody = StringBody(value: string, end: int, errors: seq<LexError>, terminated: bool)

  function Prepend(value: string, errors: seq<LexError>, rest: StringBody): StringBody {
    StringBody(value + rest.value, rest.end, errors + rest.errors, rest.terminated)
  }

  /** The string body from offset i on, of the literal opened at `open`. */
  function ScanBody(s: seq<byte>, open: nat, i: nat): (r: StringBody)
    requires open < i <= |s|
    ensures i <= r.end <= |s|
    decreases |s| - i
  {
    if i == |s| then StringBody("", i, [], false)
    else if s[i] == QUOTE then StringBody("", i + 1, [], true)
    else if s[i] == BACKSLASH && i + 1 < |s| then Prepend([Unescape(s[i + 1])], [], ScanBody(s, open, i + 2))
    else if s[i] == NEWLINE then
      Prepend("", [LexError(NewlineInString, SpanOf(s, open, i + 1))], ScanBody(s, open, i + 1))
    else Prepend([s[i] as char], [], ScanBody(s, open, i + 1))
  }

  // ---- one lexeme -------------------------------------------------------------

  /** The lexeme at an offset: where it ends, its token if any, its errors. */
  datatype Lexeme = Lexeme(end: int, tokens: seq<Token>, errors: seq<LexError>)

  function TokenLexeme(s: seq<byte>, i: nat, end: nat, kind: TokenKind): Lexeme
    requires i <= |s|
  {
    Lexeme(end, [Token(kind, SpanOf(s, i, end))], [])
  }

  function StringLexeme(s: seq<byte>, i: nat): Lexeme
    requires i < |s|
  {
    var body := ScanBody(s, i, i + 1);
    if body.terminated then Lexeme(body.end, [Token(Str(body.value), SpanOf(s, i, body.end))], body.errors)
    else Lexeme(body.end, [], body.errors + [LexError(UnterminatedString, SpanOf(s, i, body.end))])
  }

  function Scan(s: seq<byte>, i: nat): (r: Lexeme)
    requires i < |s|
    ensures i < r.end <= |s|
  {
    if IsSpace(s[i]) then Lexeme(i + 1, [], [])
    else if s[i] == SLASH && At(s, i + 1) == Some(SLASH) then Lexeme(RunEnd(s, i, NotNewline), [], [])
    else if SymbolOf(s[i], At(s, i + 1)).Some? then
      var (symbol, width) := SymbolOf(s[i], At(s, i + 1)).value;
      TokenLexeme(s, i, i + width, Sym(symbol))
    else if s[i] == QUOTE then StringLexeme(s, i)
    else if StartsNumber(s, i) then TokenLexeme(s, i, NumberEnd(s, i), Number(Latin(s[i..NumberEnd(s, i)])))
    else if IsWordStart(s[i]) then
      var end := RunEnd(s, i + 1, IsWordByte);
      TokenLexeme(s, i, end, Ident(Latin(s[i..end])))
    else Lexeme(i + 1, [], [LexError(UnexpectedCharacter, SpanOf(s, i, i + 1))])
  }

  // ---- the whole input --------------------------------------------------------

  datatype Lexed = Lexed(tokens: seq<Token>, errors: seq<LexError>)

  function Append(a: Lexed, b: Lexed): Lexed {
    Lexed(a.tokens + b.tokens, a.errors + b.errors)
  }

  /** The lexemes from offset i on, then Eof. */
  function LexFrom(s: seq<byte>, i: nat): (r: Lexed)
    requires i <= |s|
    decreases |s| - i
  {
    if i == |s| then Lexed([Token(Eof, SpanOf(s, i, i))], [])
    else
      var x := Scan(s, i);
      Append(Lexed(x.tokens, x.errors), LexFrom(s, x.end))
  }

  // ---- the scanning loop --------------------------------------------------------

  datatype Cursor = Cursor(index: nat, line: int, column: int)

  ghost predicate Tracks(s: seq<byte>, at: Cursor) {
    at.index <= |s| && at == Cursor(at.index, LineAt(s, at.index), ColumnAt(s, at.index))
  }

  function SpanTo(at: Cursor, end: int): Span {
    Span(at.index, end, at.line, at.column)
  }

  method Advance(s: seq<byte>, at: Cursor, count: nat) returns (to: Cursor)
    requires Tracks(s, at)
    ensures Tracks(s, to)
    ensures to.index == if at.index + count <= |s| then at.index + count else |s|
  {
    var stop := if at.index + count <= |s| then at.index + count else |s|;
    to := at;
    for k := at.index to stop
      invariant to == Cursor(at.index, LineAt(s, k), ColumnAt(s, k))
    {
      if s[k] == NEWLINE {
        to := to.(line := to.line + 1, column := 1);
      } else {
        to := to.(column := to.column + 1);
      }
    }
    to := to.(index := stop);
  }

  /** `while index < len && p(bytes[index]) { advance 1 }` */
  method AdvanceWhile(s: seq<byte>, at: Cursor, p: byte -> bool) returns (to: Cursor)
    requires Tracks(s, at)
    ensures Tracks(s, to) && to.index == RunEnd(s, at.index, p)
  {
    to := at;
    while to.index < |s| && p(s[to.index])
      invariant Tracks(s, to) && RunEnd(s, to.index, p) == RunEnd(s, at.index, p)
      decreases |s| - to.index
    {
      to := Advance(s, to, 1);
    }
  }

  method SkipFraction(s: seq<byte>, at: Cursor) returns (to: Cursor)
    requires Tracks(s, at)
    ensures Tracks(s, to) && to.index == FractionEnd(s, at.index)
  {
    to := at;
    if At(s, to.index) == Some(DOT) && At(s, to.index + 1) != Some(DOT) {
      to := Advance(s, to, 1);
      to := AdvanceWhile(s, to, IsDigit);
    }
  }

  method SkipExponent(s: seq<byte>, at: Cursor) returns (to: Cursor)
    requires Tracks(s, at)
    ensures Tracks(s, to) && to.index == ExponentEnd(s, at.index)
  {
    to := at;
    if At(s, to.index) == Some(101) || At(s, to.index) == Some(69) {
      to := Advance(s, to, 1);
      if At(s, to.index) == Some(43) || At(s, to.index) == Some(45) {
        to := Advance(s, to, 1);
      }
      to := AdvanceWhile(s, to, IsDigit);
    }
  }

  method LexNumber(s: seq<byte>, at: Cursor) returns (to: Cursor)
    requires Tracks(s, at) && at.index < |s|
    ensures Tracks(s, to) && to.index == NumberEnd(s, at.index)
  {
    to := Advance(s, at, 1);
    to := AdvanceWhile(s, to, IsDigit);
    to := SkipFraction(s, to);
    to := SkipExponent(s, to);
  }

  lemma PrependTwice(v: string, xs: seq<LexError>, w: string, ys: seq<LexError>, rest: StringBody)
    ensures Prepend(v, xs, Prepend(w, ys, rest)) == Prepend(v + w, xs + ys, rest)
  {
    assert v + (w + rest.value) == v + w + rest.value;
    assert xs + (ys + rest.errors) == xs + ys + rest.errors;
  }

  /** One round of the string loop, after the value and errors collected so far. */
  lemma BodyStep(s: seq<byte>, open: nat, i: nat, value: string, errors: seq<LexError>)
    requires open < i < |s|
    ensures Prepend(value, errors, ScanBody(s, open, i)) ==
            if s[i] == QUOTE then StringBody(value, i + 1, errors, true)
            else if s[i] == BACKSLASH && i + 1 < |s| then
              Prepend(value + [Unescape(s[i + 1])], errors, ScanBody(s, open, i + 2))
            else if s[i] == NEWLINE then
              Prepend(value, errors + [LexError(NewlineInString, SpanOf(s, open, i + 1))], ScanBody(s, open, i + 1))
            else Prepend(value + [s[i] as char], errors, ScanBody(s, open, i + 1))
  {
    assert value + "" == value && errors + [] == errors;
    if s[i] == BACKSLASH && i + 1 < |s| {
      PrependTwice(value, errors, [Unescape(s[i + 1])], [], ScanBody(s, open, i + 2));
    } else if s[i] == NEWLINE {
      PrependTwice(value, errors, "", [LexError(NewlineInString, SpanOf(s, open, i + 1))], ScanBody(s, open, i + 1));
    } else if s[i] != QUOTE {
      PrependTwice(value, errors, [s[i] as char], [], ScanBody(s, open, i + 1));
    }
  }

  lemma BodyEnds(s: seq<byte>, open: nat, value: string, errors: seq<LexError>)
    requires open < |s|
    ensures Prepend(value, errors, ScanBody(s, open, |s|)) == StringBody(value, |s|, errors, false)
  {
    assert value + "" == value && errors + [] == errors;
  }

  lemma NothingCollected(x: StringBody)
    ensures Prepend("", [], x) == x
  {
  }

  /** The string loop, from just after the opening quote at `open`. */
  method LexBody(s: seq<byte>, open: Cursor, after: Cursor)
    returns (to: Cursor, value: string, terminated: bool, errors: seq<LexError>)
    requires Tracks(s, open) && Tracks(s, after) && open.index < after.index
    ensures Tracks(s, to) && ScanBody(s, open.index, after.index) == StringBody(value, to.index, errors, terminated)
  {
    hide ScanBody, Prepend, Unescape;
    to, value, terminated, errors := after, "", false, [];
    ghost var whole := ScanBody(s, open.index, after.index);
    NothingCollected(whole);
    while to.index < |s| && !terminated
      invariant Tracks(s, to) && open.index < to.index
      invariant !terminated ==> whole == Prepend(value, errors, ScanBody(s, open.index, to.index))
      invariant terminated ==> whole == StringBody(value, to.index, errors, true)
      decreases |s| - to.index
    {
      var b := s[to.index];
      BodyStep(s, open.index, to.index, value, errors);
      if b == QUOTE {
        to := Advance(s, to, 1);
        terminated := true;
      } else if b == BACKSLASH && to.index + 1 < |s| {
        to := Advance(s, to, 1);
        value := value + [Unescape(s[to.index])];
        to := Advance(s, to, 1);
      } else if b == NEWLINE {
        errors := errors + [LexError(NewlineInString, SpanTo(open, to.index + 1))];
        to := Advance(s, to, 1);
      } else {
        value := value + [b as char];
        to := Advance(s, to, 1);
      }
    }
    BodyEnds(s, open.index, value, errors);
  }

  /** One round of the main loop. */
  method LexOne(s: seq<byte>, at: Cursor) returns (to: Cursor, tokens: seq<Token>, errors: seq<LexError>)
    requires Tracks(s, at) && at.index < |s|
    ensures Tracks(s, to) && Scan(s, at.index) == Lexeme(to.index, tokens, errors)
  {
    tokens, errors := [], [];
    var b := s[at.index];
    if IsSpace(b) {
      to := Advance(s, at, 1);
    } else if b == SLASH && At(s, at.index + 1) == Some(SLASH) {
      to := AdvanceWhile(s, at, NotNewline);
    } else if SymbolOf(b, At(s, at.index + 1)).Some? {
      var (symbol, width) := SymbolOf(b, At(s, at.index + 1)).value;
      to := Advance(s, at, width);
      tokens := [Token(Sym(symbol), SpanTo(at, to.index))];
    } else if b == QUOTE {
      to := Advance(s, at, 1);
      var value, terminated;
      to, value, terminated, errors := LexBody(s, at, to);
      if !terminated {
        errors := errors + [LexError(UnterminatedString, SpanTo(at, to.index))];
      } else {
        tokens := [Token(Str(value), SpanTo(at, to.index))];
      }
    } else if IsDigit(b) || (b == DOT && at.index + 1 < |s| && IsDigit(s[at.index + 1])) {
      to := LexNumber(s, at);
      tokens := [Token(Number(Latin(s[at.index..to.index])), SpanTo(at, to.index))];
    } else if IsWordStart(b) {
      to := Advance(s, at, 1);
      to := AdvanceWhile(s, to, IsWordByte);
      tokens := [Token(Ident(Latin(s[at.index..to.index])), SpanTo(at, to.index))];
    } else {
      errors := [LexError(UnexpectedCharacter, SpanTo(at, at.index + 1))];
      to := Advance(s, at, 1);
    }
  }

  lemma AppendAssociates(a: Lexed, b: Lexed, c: Lexed)
    ensures Append(a, Append(b, c)) == Append(Append(a, b), c)
  {
    assert a.tokens + (b.tokens + c.tokens) == a.tokens + b.tokens + c.tokens;
    assert a.errors + (b.errors + c.errors) == a.errors + b.errors + c.errors;
  }

  method Lex(s: seq<byte>) returns (r: Result<seq<Token>, seq<LexError>>)
    ensures r == if LexFrom(s, 0).errors == [] then Ok(LexFrom(s, 0).tokens) else Err(LexFrom(s, 0).errors)
  {
    var tokens: seq<Token>, errors: seq<LexError> := [], [];
    var at := Cursor(0, 1, 1);
    ghost var whole := LexFrom(s, 0);
    assert whole == Append(Lexed([], []), whole);
    while at.index < |s|
      invariant Tracks(s, at)
      invariant whole == Append(Lexed(tokens, errors), LexFrom(s, at.index))
      decreases |s| - at.index
    {
      var to, newTokens, newErrors := LexOne(s, at);
      AppendAssociates(Lexed(tokens, errors), Lexed(newTokens, newErrors), LexFrom(s, to.index));
      tokens, errors, at := tokens + newTokens, errors + newErrors, to;
    }
    tokens := tokens + [Token(Eof, SpanTo(at, at.index))];
    assert errors + [] == errors;
    if errors == [] {
      r := Ok(tokens);
    } else {
      r := Err(errors);
    }
  }
}
