/**
 What the recursive-descent parser computes at each token index: the value it
 builds, the index it stops at, and the errors it reports on the way.
 */
module Grammar {
  import opened Wrappers
  import opened Lexer
  import opened Ast

  datatype ParseCode = P0001 | P0002 | P0003 | P0004 | P0005 | P0006 | P0007 | P0008 | P0009 | P0010 | P0011 | P0012

  datatype ParseError = ParseError(code: ParseCode, span: Span)

  datatype Parsed<+T> = Parsed(value: T, next: nat, errors: seq<ParseError>)

  /** What one loop round found, followed by what the remaining rounds find. */
  function Join<T>(value: seq<T>, errors: seq<ParseError>, rest: Parsed<seq<T>>): Parsed<seq<T>> {
    Parsed(value + rest.value, rest.next, errors + rest.errors)
  }

  lemma JoinTwice<T>(v: seq<T>, d: seq<ParseError>, w: seq<T>, e: seq<ParseError>, rest: Parsed<seq<T>>)
    ensures Join(v, d, Join(w, e, rest)) == Join(v + w, d + e, rest)
  {
    assert v + (w + rest.value) == v + w + rest.value;
    assert d + (e + rest.errors) == d + e + rest.errors;
  }

  lemma JoinNothing<T>(rest: Parsed<seq<T>>)
    ensures Join([], [], rest) == rest
  {
    assert [] + rest.value == rest.value && [] + rest.errors == rest.errors;
  }

  predicate EndsInEof(toks: seq<Token>) {
    |toks| > 0 && toks[|toks| - 1].kind == Eof
  }

  predicate Inside(toks: seq<Token>, i: nat) {
    EndsInEof(toks) && i < |toks|
  }

  predicate AtEof(toks: seq<Token>, i: nat)
    requires Inside(toks, i)
  {
    toks[i].kind == Eof
  }

  predicate AtSymbol(toks: seq<Token>, i: nat, symbol: Symbol)
    requires Inside(toks, i)
  {
    toks[i].kind == Sym(symbol)
  }

  function ErrorAt(toks: seq<Token>, i: nat, code: ParseCode): seq<ParseError>
    requires Inside(toks, i)
  {
    [ParseError(code, toks[i].span)]
  }

  /** Past the symbol if it is there. */
  function Take(toks: seq<Token>, i: nat, symbol: Symbol): (n: nat)
    requires Inside(toks, i)
    ensures i <= n < |toks|
    ensures n == i + (if AtSymbol(toks, i, symbol) then 1 else 0)
  {
    if AtSymbol(toks, i, symbol) then i + 1 else i
  }

  // ---- recovery -----------------------------------------------------------------

  predicate StopsTop(s: Symbol) { s == RBrace }

  predicate StopsField(s: Symbol) { s == Semicolon || s == RBrace }

  predicate StopsList(s: Symbol) { s == Comma || s == RBracket }

  /** The first token from i on that is Eof or a stopping symbol. */
  function SkipTo(toks: seq<Token>, i: nat, stops: Symbol -> bool): (n: nat)
    requires Inside(toks, i)
    ensures i <= n < |toks|
    ensures n == i ==> AtEof(toks, i) || (toks[i].kind.Sym? && stops(toks[i].kind.symbol))
    decreases |toks| - i
  {
    if toks[i].kind == Eof || (toks[i].kind.Sym? && stops(toks[i].kind.symbol)) then i
    else SkipTo(toks, i + 1, stops)
  }

  function RecoverTop(toks: seq<Token>, i: nat): (n: nat)
    requires Inside(toks, i)
    ensures i <= n < |toks|
    ensures !AtEof(toks, i) ==> i < n
  {
    Take(toks, SkipTo(toks, i, StopsTop), RBrace)
  }

  function RecoverField(toks: seq<Token>, i: nat): (n: nat)
    requires Inside(toks, i)
    ensures i <= n < |toks|
    ensures !AtEof(toks, i) && !AtSymbol(toks, i, RBrace) ==> i < n
  {
    Take(toks, SkipTo(toks, i, StopsField), Semicolon)
  }

  function RecoverList(toks: seq<Token>, i: nat): (n: nat)
    requires Inside(toks, i)
    ensures i <= n < |toks|
    ensures !AtEof(toks, i) && !AtSymbol(toks, i, RBracket) ==> i < n
  {
    Take(toks, SkipTo(toks, i, StopsList), Comma)
  }

  // ---- values -------------------------------------------------------------------

  function ExpectIdent(toks: seq<Token>, i: nat, code: ParseCode): (r: Parsed<Option<string>>)
    requires Inside(toks, i)
    ensures i <= r.next < |toks| && (r.value.Some? <==> i < r.next)
  {
    if toks[i].kind.Ident? then Parsed(Some(toks[i].kind.text), i + 1, [])
    else Parsed(None, i, ErrorAt(toks, i, code))
  }

  function ExpectNumber(toks: seq<Token>, i: nat, code: ParseCode): (r: Parsed<Option<string>>)
    requires Inside(toks, i)
    ensures i <= r.next < |toks|
  {
    if toks[i].kind.Number? then Parsed(Some(toks[i].kind.text), i + 1, [])
    else Parsed(None, i, ErrorAt(toks, i, code))
  }

  function Scalar(kind: TokenKind): Option<Value> {
    match kind
    case Number(text) => Some(Numeric(text))
    case Ident(text) => Some(Identifier(text))
    case Str(text) => Some(Text(text))
    case _ => None
  }

  predicate ListEnds(toks: seq<Token>, i: nat)
    requires Inside(toks, i)
  {
    AtSymbol(toks, i, RBracket) || AtEof(toks, i)
  }

  /** Where the list loop continues after an element whose next token is at j. */
  function AfterItem(toks: seq<Token>, j: nat): (r: Parsed<()>)
    requires Inside(toks, j)
    ensures j <= r.next < |toks|
  {
    if AtSymbol(toks, j, Comma) then Parsed((), j + 1, [])
    else if AtSymbol(toks, j, RBracket) then Parsed((), j, [])
    else Parsed((), RecoverList(toks, j), ErrorAt(toks, j, P0009))
  }

  /** One round of the list loop: at most one element. */
  function ItemAt(toks: seq<Token>, i: nat): (r: Parsed<seq<Value>>)
    requires Inside(toks, i) && !ListEnds(toks, i)
    ensures i < r.next < |toks|
  {
    match Scalar(toks[i].kind)
    case Some(value) =>
      var after := AfterItem(toks, i + 1);
      Parsed([value], after.next, after.errors)
    case None =>
      Parsed([], RecoverList(toks, i), ErrorAt(toks, i, P0008))
  }

  function ListItems(toks: seq<Token>, i: nat): (r: Parsed<seq<Value>>)
    requires Inside(toks, i)
    ensures i <= r.next < |toks| && ListEnds(toks, r.next)
    decreases |toks| - i
  {
    if ListEnds(toks, i) then Parsed([], i, [])
    else
      var item := ItemAt(toks, i);
      Join(item.value, item.errors, ListItems(toks, item.next))
  }

  function ListValue(toks: seq<Token>, i: nat): (r: Parsed<Option<Value>>)
    requires Inside(toks, i) && AtSymbol(toks, i, LBracket)
    ensures i < r.next < |toks|
  {
    var items := ListItems(toks, i + 1);
    if AtSymbol(toks, items.next, RBracket) then Parsed(Some(List(items.value)), items.next + 1, items.errors)
    else Parsed(Some(List(items.value)), items.next, items.errors + ErrorAt(toks, items.next, P0012))
  }

  function RangeValue(toks: seq<Token>, i: nat, start: string, code: ParseCode): (r: Parsed<Option<Value>>)
    requires Inside(toks, i)
    ensures i <= r.next < |toks|
  {
    var end := ExpectNumber(toks, i, code);
    Parsed(if end.value.Some? then Some(Range(start, end.value.value)) else None, end.next, end.errors)
  }

  function ParsedValue(toks: seq<Token>, i: nat): (r: Parsed<Option<Value>>)
    requires Inside(toks, i)
    ensures i <= r.next < |toks|
    ensures r.value.Some? ==> i < r.next
  {
    match toks[i].kind
    case Str(text) => Parsed(Some(Text(text)), i + 1, [])
    case Number(text) =>
      if AtSymbol(toks, i + 1, DotDot) then RangeValue(toks, i + 2, text, P0010)
      else if toks[i + 1].kind.Ident? then Parsed(Some(Quantity(text, toks[i + 1].kind.text)), i + 2, [])
      else Parsed(Some(Numeric(text)), i + 1, [])
    case Ident(text) =>
      if AtSymbol(toks, i + 1, DotDot) then RangeValue(toks, i + 2, text, P0011)
      else Parsed(Some(Identifier(text)), i + 1, [])
    case Sym(symbol) =>
      if symbol == LBracket then ListValue(toks, i) else Parsed(None, i, ErrorAt(toks, i, P0007))
    case Eof => Parsed(None, i, ErrorAt(toks, i, P0007))
  }

  // ---- fields and blocks ----------------------------------------------------------

  /** From a token's start to the end of the token the parser stopped at. */
  function SpanBetween(toks: seq<Token>, first: nat, stop: nat): Span
    requires Inside(toks, first) && stop < |toks|
  {
    var start := toks[first].span;
    Span(start.start, toks[stop].span.end, start.line, start.column)
  }

  /** One round of the field loop: at most one field. */
  function FieldAt(toks: seq<Token>, i: nat): (r: Parsed<seq<Field>>)
    requires Inside(toks, i) && !AtSymbol(toks, i, RBrace) && !AtEof(toks, i)
    ensures i < r.next < |toks|
  {
    var key := ExpectIdent(toks, i, P0004);
    if key.value.None? then Parsed([], RecoverField(toks, key.next), key.errors)
    else
      var value := ParsedValue(toks, key.next);
      if value.value.None? then Parsed([], RecoverField(toks, value.next), value.errors)
      else if AtSymbol(toks, value.next, Semicolon) then
        Parsed([Field(key.value.value, value.value.value, SpanBetween(toks, i, value.next + 1))], value.next + 1,
               value.errors)
      else
        var next := RecoverField(toks, value.next);
        Parsed([Field(key.value.value, value.value.value, SpanBetween(toks, i, next))], next,
               value.errors + ErrorAt(toks, value.next, P0005))
  }

  predicate BlockEnds(toks: seq<Token>, i: nat)
    requires Inside(toks, i)
  {
    AtSymbol(toks, i, RBrace) || AtEof(toks, i)
  }

  function Fields(toks: seq<Token>, i: nat): (r: Parsed<seq<Field>>)
    requires Inside(toks, i)
    ensures i <= r.next < |toks| && BlockEnds(toks, r.next)
    decreases |toks| - i
  {
    if BlockEnds(toks, i) then Parsed([], i, [])
    else
      var field := FieldAt(toks, i);
      Join(field.value, field.errors, Fields(toks, field.next))
  }

  /** The fields and the closing brace. */
  function ClosedFields(toks: seq<Token>, i: nat): (r: Parsed<seq<Field>>)
    requires Inside(toks, i)
    ensures i <= r.next < |toks|
  {
    var fields := Fields(toks, i);
    if AtSymbol(toks, fields.next, RBrace) then Parsed(fields.value, fields.next + 1, fields.errors)
    else Parsed(fields.value, fields.next, fields.errors + ErrorAt(toks, fields.next, P0006))
  }

  function BlockAt(toks: seq<Token>, i: nat): (r: Parsed<Option<Block>>)
    requires Inside(toks, i)
    ensures i <= r.next < |toks|
    ensures r.value.Some? ==> i < r.next
  {
    var kind := ExpectIdent(toks, i, P0001);
    if kind.value.None? then Parsed(None, kind.next, kind.errors)
    else
      var name := ExpectIdent(toks, kind.next, P0002);
      if name.value.None? then Parsed(None, name.next, name.errors)
      else if !AtSymbol(toks, name.next, LBrace) then Parsed(None, name.next, ErrorAt(toks, name.next, P0003))
      else
        var body := ClosedFields(toks, name.next + 1);
        Parsed(Some(Block(kind.value.value, name.value.value, body.value, SpanBetween(toks, i, body.next))),
               body.next, body.errors)
  }

  /** One round of the declaration loop: at most one block. */
  function DeclarationAt(toks: seq<Token>, i: nat): (r: Parsed<seq<Block>>)
    requires Inside(toks, i) && !AtEof(toks, i)
    ensures i < r.next < |toks|
  {
    var block := BlockAt(toks, i);
    if block.value.Some? then Parsed([block.value.value], block.next, block.errors)
    else Parsed([], RecoverTop(toks, block.next), block.errors)
  }

  function Declarations(toks: seq<Token>, i: nat): (r: Parsed<seq<Block>>)
    requires Inside(toks, i)
    ensures i <= r.next < |toks|
    decreases |toks| - i
  {
    if AtEof(toks, i) then Parsed([], i, [])
    else
      var block := DeclarationAt(toks, i);
      Join(block.value, block.errors, Declarations(toks, block.next))
  }

  function ParsedProgram(toks: seq<Token>, sourceName: string): Result<Program, seq<ParseError>>
    requires EndsInEof(toks)
  {
    var blocks := Declarations(toks, 0);
    if blocks.errors == [] then Ok(Program(sourceName, blocks.value)) else Err(blocks.errors)
  }
}
