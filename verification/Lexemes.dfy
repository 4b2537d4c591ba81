/**
 The lexical grammar without a scanner: what stands at an offset is of exactly one
 kind, and the scanner reads it as that, to its end.
 */
module Lexemes {
  import opened Bytes
  import opened Lexer
  import opened LexicalText

  predicate Letter(b: byte) {
    'a' as int <= b <= 'z' as int || 'A' as int <= b <= 'Z' as int
  }

  predicate Digit(b: byte) {
    '0' as int <= b <= '9' as int
  }

  predicate IsChar(s: seq<byte>, i: int, c: char) {
    0 <= i < |s| && s[i] == c as int
  }

  predicate AllDigits(s: seq<byte>, i: int, j: int) {
    0 <= i <= j <= |s| && forall k :: i <= k < j ==> Digit(s[k])
  }

  predicate NoDigitAt(s: seq<byte>, j: int) {
    0 <= j && (j < |s| ==> !Digit(s[j]))
  }

  // ---- the kinds of lexemes -------------------------------------------------------------

  predicate SpaceAt(s: seq<byte>, i: nat) {
    IsChar(s, i, ' ') || IsChar(s, i, '\t') || IsChar(s, i, '\n') || IsChar(s, i, '\r') || (i < |s| && s[i] == 12)
  }

  /** Two slashes and the rest of the line, without its end. */
  predicate CommentAt(s: seq<byte>, i: nat, j: nat) {
    && IsChar(s, i, '/') && IsChar(s, i + 1, '/') && i < j <= |s|
    && (forall k :: i <= k < j ==> !IsChar(s, k, '\n')) && (j < |s| ==> IsChar(s, j, '\n'))
  }

  predicate SymbolAt(s: seq<byte>, i: nat, symbol: Symbol) {
    match symbol
    case LBrace => IsChar(s, i, '{')
    case RBrace => IsChar(s, i, '}')
    case LBracket => IsChar(s, i, '[')
    case RBracket => IsChar(s, i, ']')
    case LParen => IsChar(s, i, '(')
    case RParen => IsChar(s, i, ')')
    case Semicolon => IsChar(s, i, ';')
    case Comma => IsChar(s, i, ',')
    case Colon => IsChar(s, i, ':')
    case DotDot => IsChar(s, i, '.') && IsChar(s, i + 1, '.')
  }

  /** A letter or underscore, and all letters, digits, underscores and dashes that follow. */
  predicate WordAt(s: seq<byte>, i: nat, j: nat) {
    && i < j <= |s| && (Letter(s[i]) || IsChar(s, i, '_'))
    && (forall k :: i <= k < j ==> Letter(s[k]) || Digit(s[k]) || IsChar(s, k, '_') || IsChar(s, k, '-'))
    && (j < |s| ==> !(Letter(s[j]) || Digit(s[j]) || IsChar(s, j, '_') || IsChar(s, j, '-')))
  }

  /** A dot that is not the first of two, and all digits that follow it. */
  predicate FractionAt(s: seq<byte>, a: int, b: int) {
    && IsChar(s, a, '.') && !IsChar(s, a + 1, '.') && a < b && AllDigits(s, a + 1, b) && NoDigitAt(s, b)
  }

  /** An e, perhaps a sign, and all digits that follow. */
  predicate ExponentAt(s: seq<byte>, b: int, j: int) {
    && (IsChar(s, b, 'e') || IsChar(s, b, 'E')) && b < j
    && var k := if IsChar(s, b + 1, '+') || IsChar(s, b + 1, '-') then b + 2 else b + 1;
       AllDigits(s, k, j) && NoDigitAt(s, j)
  }

  /** Digits, or a dot before digits; then a fraction and an exponent, if they are there. */
  ghost predicate NumberAt(s: seq<byte>, i: nat, j: nat) {
    exists a: nat, b: nat :: NumberParts(s, i, a, b, j)
  }

  predicate NumberStart(s: seq<byte>, i: nat) {
    i < |s| && (Digit(s[i]) || (IsChar(s, i, '.') && i + 1 < |s| && Digit(s[i + 1])))
  }

  predicate NumberParts(s: seq<byte>, i: nat, a: nat, b: nat, j: nat) {
    && i < a <= b <= j <= |s| && NumberStart(s, i) && AllDigits(s, i + 1, a) && NoDigitAt(s, a)
    && (FractionAt(s, a, b) || (b == a && !(IsChar(s, a, '.') && !IsChar(s, a + 1, '.'))))
    && (ExponentAt(s, b, j) || (j == b && !IsChar(s, b, 'e') && !IsChar(s, b, 'E')))
  }

  /** Nothing that any lexeme starts with. */
  predicate StrayAt(s: seq<byte>, i: nat) {
    && i < |s| && !SpaceAt(s, i) && !(IsChar(s, i, '/') && IsChar(s, i + 1, '/'))
    && (forall symbol :: !SymbolAt(s, i, symbol))
    && !Letter(s[i]) && !IsChar(s, i, '_') && !Digit(s[i])
    && !(IsChar(s, i, '.') && i + 1 < |s| && Digit(s[i + 1])) && !IsChar(s, i, '"')
  }

  // ---- what the scanner reads -------------------------------------------------------------

  lemma ByteClasses(b: byte)
    ensures IsLetter(b) <==> Letter(b)
    ensures IsDigit(b) <==> Digit(b)
    ensures IsWordStart(b) <==> Letter(b) || b == '_' as int
    ensures IsWordByte(b) <==> Letter(b) || Digit(b) || b == '_' as int || b == '-' as int
    ensures NotNewline(b) <==> b != '\n' as int
  {
  }

  lemma ReadsSpaceAt(s: seq<byte>, i: nat)
    requires SpaceAt(s, i)
    ensures Scan(s, i) == Lexeme(i + 1, [], [])
  {
  }

  lemma ReadsCommentAt(s: seq<byte>, i: nat, j: nat)
    requires CommentAt(s, i, j)
    ensures Scan(s, i) == Lexeme(j, [], [])
  {
    forall k | i <= k < j ensures NotNewline(s[k]) {
      assert !IsChar(s, k, '\n');
    }
    RunEndsAt(s, i, NotNewline, j);
  }

  /** The symbol's token covers its one or two characters. */
  lemma ReadsSymbolAt(s: seq<byte>, i: nat, symbol: Symbol)
    requires SymbolAt(s, i, symbol)
    ensures var j := if symbol == DotDot then i + 2 else i + 1;
            Scan(s, i) == Lexeme(j, [Token(Sym(symbol), SpanOf(s, i, j))], [])
  {
  }

  lemma ReadsWordAt(s: seq<byte>, i: nat, j: nat)
    requires WordAt(s, i, j)
    ensures Scan(s, i) == Lexeme(j, [Token(Ident(Latin(s[i..j])), SpanOf(s, i, j))], [])
  {
    forall k | i <= k < j ensures IsWordByte(s[k]) {
      ByteClasses(s[k]);
    }
    ByteClasses(s[i]);
    if j < |s| {
      ByteClasses(s[j]);
    }
    RunEndsAt(s, i + 1, IsWordByte, j);
  }

  lemma ReadsStrayAt(s: seq<byte>, i: nat)
    requires StrayAt(s, i)
    ensures Scan(s, i) == Lexeme(i + 1, [], [LexError(UnexpectedCharacter, SpanOf(s, i, i + 1))])
  {
    assert !SymbolAt(s, i, LBrace) && !SymbolAt(s, i, RBrace) && !SymbolAt(s, i, LBracket) && !SymbolAt(s, i, RBracket);
    assert !SymbolAt(s, i, LParen) && !SymbolAt(s, i, RParen) && !SymbolAt(s, i, Semicolon) && !SymbolAt(s, i, Comma);
    assert !SymbolAt(s, i, Colon) && !SymbolAt(s, i, DotDot);
  }

  lemma DigitRun(s: seq<byte>, i: nat, j: nat)
    requires AllDigits(s, i, j) && NoDigitAt(s, j)
    ensures RunEnd(s, i, IsDigit) == j
  {
    RunEndsAt(s, i, IsDigit, j);
  }

  lemma ReadsNumberAt(s: seq<byte>, i: nat, j: nat)
    requires NumberAt(s, i, j)
    ensures Scan(s, i) == Lexeme(j, [Token(Number(Latin(s[i..j])), SpanOf(s, i, j))], [])
  {
    NumberEndIs(s, i, j);
    hide NumberEnd, RunEnd;
  }

  lemma NumberEndIs(s: seq<byte>, i: nat, j: nat)
    requires NumberAt(s, i, j)
    ensures NumberStart(s, i) && NumberEnd(s, i) == j
  {
    hide RunEnd;
    var a: nat, b: nat :| NumberParts(s, i, a, b, j);
    DigitRun(s, i + 1, a);
    FractionEndIs(s, a, b);
    ExponentEndIs(s, b, j);
  }

  lemma FractionEndIs(s: seq<byte>, a: nat, b: nat)
    requires a <= b <= |s|
    requires FractionAt(s, a, b) || (b == a && !(IsChar(s, a, '.') && !IsChar(s, a + 1, '.')))
    ensures FractionEnd(s, a) == b
  {
    hide RunEnd;
    if FractionAt(s, a, b) {
      DigitRun(s, a + 1, b);
    }
  }

  lemma ExponentEndIs(s: seq<byte>, b: nat, j: nat)
    requires b <= j <= |s|
    requires ExponentAt(s, b, j) || (j == b && !IsChar(s, b, 'e') && !IsChar(s, b, 'E'))
    ensures ExponentEnd(s, b) == j
  {
    hide RunEnd;
    if ExponentAt(s, b, j) {
      DigitRun(s, if IsChar(s, b + 1, '+') || IsChar(s, b + 1, '-') then b + 2 else b + 1, j);
    }
  }

  /** Some lexeme stands at every offset: one of these, or a string. */
  lemma EveryOffset(s: seq<byte>, i: nat)
    requires i < |s|
    ensures || SpaceAt(s, i) || (exists j :: CommentAt(s, i, j)) || (exists symbol :: SymbolAt(s, i, symbol))
            || (exists j :: WordAt(s, i, j)) || (exists j :: NumberAt(s, i, j)) || IsChar(s, i, '"') || StrayAt(s, i)
  {
    if IsChar(s, i, '/') && IsChar(s, i + 1, '/') {
      CommentEnds(s, i);
    } else if Letter(s[i]) || IsChar(s, i, '_') {
      WordEnds(s, i);
    } else if NumberStart(s, i) {
      NumberEnds(s, i);
    }
  }

  lemma CommentEnds(s: seq<byte>, i: nat)
    requires IsChar(s, i, '/') && IsChar(s, i + 1, '/')
    ensures exists j :: CommentAt(s, i, j)
  {
    RunIs(s, i, NotNewline);
    assert CommentAt(s, i, RunEnd(s, i, NotNewline));
  }

  lemma WordEnds(s: seq<byte>, i: nat)
    requires i < |s| && (Letter(s[i]) || IsChar(s, i, '_'))
    ensures exists j :: WordAt(s, i, j)
  {
    var j := RunEnd(s, i + 1, IsWordByte);
    RunIs(s, i + 1, IsWordByte);
    forall k | i <= k < |s|
      ensures IsWordByte(s[k]) <==> Letter(s[k]) || Digit(s[k]) || IsChar(s, k, '_') || IsChar(s, k, '-')
    {
      ByteClasses(s[k]);
    }
    assert WordAt(s, i, j);
  }

  lemma DigitsFrom(s: seq<byte>, i: nat) returns (j: nat)
    requires i <= |s|
    ensures AllDigits(s, i, j) && NoDigitAt(s, j)
  {
    j := RunEnd(s, i, IsDigit);
    RunIs(s, i, IsDigit);
  }

  lemma NumberEnds(s: seq<byte>, i: nat)
    requires NumberStart(s, i)
    ensures exists j :: NumberAt(s, i, j)
  {
    var a := DigitsFrom(s, i + 1);
    var b := a;
    if IsChar(s, a, '.') && !IsChar(s, a + 1, '.') {
      b := DigitsFrom(s, a + 1);
    }
    var j := b;
    if IsChar(s, b, 'e') || IsChar(s, b, 'E') {
      j := DigitsFrom(s, if IsChar(s, b + 1, '+') || IsChar(s, b + 1, '-') then b + 2 else b + 1);
    }
    assert FractionAt(s, a, b) || (b == a && !(IsChar(s, a, '.') && !IsChar(s, a + 1, '.')));
    assert ExponentAt(s, b, j) || (j == b && !IsChar(s, b, 'e') && !IsChar(s, b, 'E'));
    assert NumberParts(s, i, a, b, j);
    assert NumberAt(s, i, j);
  }

  // ---- strings ------------------------------------------------------------------------------

  /** The offsets that a string's characters and escapes start at, from i on, up to its closing quote. */
  ghost function Pieces(s: seq<byte>, i: nat): set<nat>
    requires i <= |s|
    decreases |s| - i
  {
    if i == |s| then {}
    else if IsChar(s, i, '"') then {i}
    else if IsChar(s, i, '\\') && i + 1 < |s| then {i} + Pieces(s, i + 2)
    else {i} + Pieces(s, i + 1)
  }

  lemma {:induction false} PiecesAfter(s: seq<byte>, i: nat)
    requires i <= |s|
    ensures forall k :: k in Pieces(s, i) ==> i <= k < |s|
    decreases |s| - i
  {
    if i < |s| && !IsChar(s, i, '"') {
      PiecesAfter(s, if IsChar(s, i, '\\') && i + 1 < |s| then i + 2 else i + 1);
    }
  }

  /** Letters behind a backslash that mean something else; every other byte means itself. */
  lemma EscapesAre(b: byte)
    ensures Unescape(b) == if b == 'n' as int then '\n' else if b == 'r' as int then '\r'
                           else if b == 't' as int then '\t' else b as char
  {
  }

  /** A string body closes at the first quote that starts a piece; every piece that is a newline is an error there. */
  lemma {:induction false} BodyIs(s: seq<byte>, open: nat, i: nat)
    requires open < i <= |s|
    ensures var body := ScanBody(s, open, i);
            && (body.terminated ==> body.end - 1 in Pieces(s, i) && IsChar(s, body.end - 1, '"'))
            && (!body.terminated ==> body.end == |s| && forall k :: k in Pieces(s, i) ==> !IsChar(s, k, '"'))
            && (forall e :: e in body.errors
                  <==> exists k :: k in Pieces(s, i) && IsChar(s, k, '\n')
                                   && e == LexError(NewlineInString,
                                                    Span(open, k + 1, LineAt(s, open), ColumnAt(s, open))))
    decreases |s| - i
  {
    if i < |s| && !IsChar(s, i, '"') {
      var next := if IsChar(s, i, '\\') && i + 1 < |s| then i + 2 else i + 1;
      BodyIs(s, open, next);
      PiecesAfter(s, next);
    }
  }

  /** The string at a quote: its token up to the closing quote, or the error that there is none. */
  lemma ReadsStringAt(s: seq<byte>, i: nat)
    requires IsChar(s, i, '"')
    ensures var x, body := Scan(s, i), ScanBody(s, i, i + 1);
            && x.end == body.end
            && (body.terminated
                ==> x.tokens == [Token(Str(body.value), SpanOf(s, i, body.end))] && x.errors == body.errors)
            && (!body.terminated ==>
                  x.tokens == [] && x.errors == body.errors + [LexError(UnterminatedString, SpanOf(s, i, |s|))])
  {
    BodyIs(s, i, i + 1);
    hide ScanBody;
  }

  // ---- positions ---------------------------------------------------------------------------

  /** Lines count the newlines before an offset, columns the bytes since the last one. */
  lemma {:induction false} PositionIs(s: seq<byte>, i: nat) returns (start: nat)
    requires i <= |s|
    ensures start <= i && (start == 0 || IsChar(s, start - 1, '\n'))
    ensures forall k :: start <= k < i ==> !IsChar(s, k, '\n')
    ensures ColumnAt(s, i) == i - start + 1
    ensures LineAt(s, i) == 1 + |NewlinesBefore(s, i)|
  {
    if i == 0 {
      start := 0;
    } else {
      start := PositionIs(s, i - 1);
      OneByteMore(s, i);
      hide NewlinesBefore;
      if s[i - 1] == NEWLINE {
        start := i;
      }
    }
  }

  ghost function NewlinesBefore(s: seq<byte>, i: nat): set<int> {
    set k | 0 <= k < i && IsChar(s, k, '\n')
  }

  lemma OneByteMore(s: seq<byte>, i: nat)
    requires 0 < i <= |s|
    ensures |NewlinesBefore(s, i)| == |NewlinesBefore(s, i - 1)| + if IsChar(s, i - 1, '\n') then 1 else 0
  {
    var before, now := NewlinesBefore(s, i - 1), NewlinesBefore(s, i);
    assert now == before + if IsChar(s, i - 1, '\n') then {i - 1} else {};
  }

  /** A span: from its start to its end, placed where it starts. */
  lemma SpanIs(s: seq<byte>, start: nat, end: int)
    requires start <= |s|
    ensures var span := SpanOf(s, start, end);
            span.start == start && span.end == end && span.line == LineAt(s, start) && span.column == ColumnAt(s, start)
  {
  }

  /** The end of the input is one token more, at the end. */
  lemma LastIsEof(s: seq<byte>, i: nat)
    requires i <= |s|
    ensures var tokens := LexFrom(s, i).tokens;
            tokens != [] && tokens[|tokens| - 1] == Token(Eof, SpanOf(s, |s|, |s|))
    decreases |s| - i
  {
    if i < |s| {
      LastIsEof(s, Scan(s, i).end);
    }
  }
}
