/** The recovering recursive-descent parser over a token vector that ends in Eof. */
module Parser {
  import opened Wrappers
  import opened Lexer
  import opened Ast
  import opened Grammar

  class Parser {
    const tokens: seq<Token>
    var index: nat
    var errors: seq<ParseError>

    /** Never past the final Eof, so `current` is always in range. */
    ghost predicate Valid()
      reads this
    {
      Inside(tokens, index)
    }

    constructor (tokens: seq<Token>)
      requires EndsInEof(tokens)
      ensures Valid() && this.tokens == tokens && index == 0 && errors == []
    {
      this.tokens := tokens;
      index := 0;
      errors := [];
    }

    function Current(): (t: Token)
      requires Valid()
      reads this
      ensures t == tokens[index]
    {
      tokens[if index < |tokens| - 1 then index else |tokens| - 1]
    }

    function IsSymbol(symbol: Symbol): bool
      requires Valid()
      reads this
    {
      Current().kind == Sym(symbol)
    }

    method Advance() returns (token: Token)
      requires Valid()
      modifies this`index
      ensures Valid() && token == tokens[old(index)]
      ensures index == old(index) + if token.kind == Eof then 0 else 1
    {
      token := Current();
      if token.kind != Eof {
        index := index + 1;
      }
    }

    method TakeSymbol(symbol: Symbol) returns (taken: bool)
      requires Valid()
      modifies this`index
      ensures Valid() && taken == AtSymbol(tokens, old(index), symbol) && index == Take(tokens, old(index), symbol)
    {
      taken := IsSymbol(symbol);
      if taken {
        var _ := Advance();
      }
    }

    method Error(code: ParseCode)
      requires Valid()
      modifies this`errors
      ensures errors == old(errors) + ErrorAt(tokens, index, code)
    {
      errors := errors + [ParseError(code, Current().span)];
    }

    method Skip(stops: Symbol -> bool)
      requires Valid()
      modifies this`index
      ensures Valid() && index == SkipTo(tokens, old(index), stops)
    {
      while Current().kind != Eof && !(Current().kind.Sym? && stops(Current().kind.symbol))
        invariant Valid() && SkipTo(tokens, index, stops) == SkipTo(tokens, old(index), stops)
        decreases |tokens| - index
      {
        var _ := Advance();
      }
    }

    method RecoverTopLevel()
      requires Valid()
      modifies this`index
      ensures Valid() && index == RecoverTop(tokens, old(index))
    {
      Skip(StopsTop);
      var _ := TakeSymbol(RBrace);
    }

    method RecoverFieldLevel()
      requires Valid()
      modifies this`index
      ensures Valid() && index == RecoverField(tokens, old(index))
    {
      Skip(StopsField);
      var _ := TakeSymbol(Semicolon);
    }

    method RecoverListLevel()
      requires Valid()
      modifies this`index
      ensures Valid() && index == RecoverList(tokens, old(index))
    {
      Skip(StopsList);
      var _ := TakeSymbol(Comma);
    }

    method ExpectIdentifier(code: ParseCode) returns (r: Option<string>)
      requires Valid()
      modifies this
      ensures Valid()
      ensures var p := ExpectIdent(tokens, old(index), code);
              r == p.value && index == p.next && errors == old(errors) + p.errors
    {
      if Current().kind.Ident? {
        r := Some(Current().kind.text);
        var _ := Advance();
      } else {
        Error(code);
        r := None;
      }
    }

    method ExpectNumeral(code: ParseCode) returns (r: Option<string>)
      requires Valid()
      modifies this
      ensures Valid()
      ensures var p := ExpectNumber(tokens, old(index), code);
              r == p.value && index == p.next && errors == old(errors) + p.errors
    {
      if Current().kind.Number? {
        r := Some(Current().kind.text);
        var _ := Advance();
      } else {
        Error(code);
        r := None;
      }
    }

    method ParseItem() returns (r: seq<Value>)
      requires Valid() && !ListEnds(tokens, index)
      modifies this
      ensures Valid()
      ensures var p := ItemAt(tokens, old(index)); r == p.value && index == p.next && errors == old(errors) + p.errors
    {
      var value := Scalar(Current().kind);
      if value.None? {
        Error(P0008);
        RecoverListLevel();
        return [];
      }
      var _ := Advance();
      var comma := TakeSymbol(Comma);
      if !comma && !IsSymbol(RBracket) {
        Error(P0009);
        RecoverListLevel();
      }
      r := [value.value];
    }

    /** The list loop: every round moves forward. */
    method ParseItems() returns (values: seq<Value>)
      requires Valid()
      modifies this
      ensures Valid()
      ensures var p := ListItems(tokens, old(index));
              values == p.value && index == p.next && errors == old(errors) + p.errors
    {
      hide ItemAt;
      values := [];
      ghost var found: seq<ParseError> := [];
      ghost var whole := ListItems(tokens, index);
      JoinNothing(whole);
      while !IsSymbol(RBracket) && Current().kind != Eof
        invariant Valid() && errors == old(errors) + found
        invariant whole == Join(values, found, ListItems(tokens, index))
        decreases |tokens| - index
      {
        ghost var item := ItemAt(tokens, index);
        JoinTwice(values, found, item.value, item.errors, ListItems(tokens, item.next));
        var value := ParseItem();
        values := values + value;
        found := found + item.errors;
      }
      assert values + [] == values && found + [] == found;
    }

    method ParseList() returns (r: Option<Value>)
      requires Valid() && AtSymbol(tokens, index, LBracket)
      modifies this
      ensures Valid()
      ensures var p := ListValue(tokens, old(index));
              r == p.value && index == p.next && errors == old(errors) + p.errors
    {
      var _ := Advance();
      var values := ParseItems();
      var closed := TakeSymbol(RBracket);
      if !closed {
        Error(P0012);
      }
      r := Some(List(values));
    }

    method ParseValue() returns (r: Option<Value>)
      requires Valid()
      modifies this
      ensures Valid()
      ensures var p := ParsedValue(tokens, old(index));
              r == p.value && index == p.next && errors == old(errors) + p.errors
    {
      match Current().kind
      case Str(text) =>
        var _ := Advance();
        r := Some(Text(text));
      case Number(text) =>
        var _ := Advance();
        var range := TakeSymbol(DotDot);
        if range {
          var end := ExpectNumeral(P0010);
          r := if end.Some? then Some(Range(text, end.value)) else None;
        } else if Current().kind.Ident? {
          r := Some(Quantity(text, Current().kind.text));
          var _ := Advance();
        } else {
          r := Some(Numeric(text));
        }
      case Ident(text) =>
        var _ := Advance();
        var range := TakeSymbol(DotDot);
        if range {
          var end := ExpectNumeral(P0011);
          r := if end.Some? then Some(Range(text, end.value)) else None;
        } else {
          r := Some(Identifier(text));
        }
      case Sym(symbol) =>
        if symbol == LBracket {
          r := ParseList();
        } else {
          Error(P0007);
          r := None;
        }
      case Eof =>
        Error(P0007);
        r := None;
    }

    method ParseField() returns (r: seq<Field>)
      requires Valid() && !AtSymbol(tokens, index, RBrace) && !AtEof(tokens, index)
      modifies this
      ensures Valid()
      ensures var p := FieldAt(tokens, old(index)); r == p.value && index == p.next && errors == old(errors) + p.errors
    {
      hide ParsedValue, SkipTo;
      var start := Current().span;
      var key := ExpectIdentifier(P0004);
      if key.None? {
        RecoverFieldLevel();
        return [];
      }
      var value := ParseValue();
      if value.None? {
        RecoverFieldLevel();
        return [];
      }
      var closed := TakeSymbol(Semicolon);
      if !closed {
        Error(P0005);
        RecoverFieldLevel();
      }
      r := [Field(key.value, value.value, Span(start.start, Current().span.end, start.line, start.column))];
    }

    /** The field loop: every round moves forward. */
    method ParseFields() returns (fields: seq<Field>)
      requires Valid()
      modifies this
      ensures Valid()
      ensures var p := Fields(tokens, old(index));
              fields == p.value && index == p.next && errors == old(errors) + p.errors
    {
      hide FieldAt;
      fields := [];
      ghost var found: seq<ParseError> := [];
      ghost var whole := Fields(tokens, index);
      JoinNothing(whole);
      while !IsSymbol(RBrace) && Current().kind != Eof
        invariant Valid() && errors == old(errors) + found
        invariant whole == Join(fields, found, Fields(tokens, index))
        decreases |tokens| - index
      {
        ghost var round := FieldAt(tokens, index);
        JoinTwice(fields, found, round.value, round.errors, Fields(tokens, round.next));
        var field := ParseField();
        fields := fields + field;
        found := found + round.errors;
      }
      assert fields + [] == fields && found + [] == found;
    }

    method ParseClosedFields() returns (fields: seq<Field>)
      requires Valid()
      modifies this
      ensures Valid()
      ensures var p := ClosedFields(tokens, old(index));
              fields == p.value && index == p.next && errors == old(errors) + p.errors
    {
      fields := ParseFields();
      var closed := TakeSymbol(RBrace);
      if !closed {
        Error(P0006);
      }
    }

    method ParseBlock() returns (r: Option<Block>)
      requires Valid()
      modifies this
      ensures Valid()
      ensures var p := BlockAt(tokens, old(index)); r == p.value && index == p.next && errors == old(errors) + p.errors
    {
      hide ClosedFields;
      var start := Current().span;
      var kind := ExpectIdentifier(P0001);
      if kind.None? {
        return None;
      }
      var name := ExpectIdentifier(P0002);
      if name.None? {
        return None;
      }
      var brace := TakeSymbol(LBrace);
      if !brace {
        Error(P0003);
        return None;
      }
      var fields := ParseClosedFields();
      r := Some(Block(kind.value, name.value, fields, Span(start.start, Current().span.end, start.line, start.column)));
    }

    method ParseDeclaration() returns (r: seq<Block>)
      requires Valid() && !AtEof(tokens, index)
      modifies this
      ensures Valid()
      ensures var p := DeclarationAt(tokens, old(index));
              r == p.value && index == p.next && errors == old(errors) + p.errors
    {
      var block := ParseBlock();
      if block.None? {
        RecoverTopLevel();
        return [];
      }
      r := [block.value];
    }

    method ParseProgram(sourceName: string) returns (r: Result<Program, seq<ParseError>>)
      requires Valid() && index == 0 && errors == []
      modifies this
      ensures r == ParsedProgram(tokens, sourceName)
    {
      hide DeclarationAt;
      var declarations: seq<Block> := [];
      ghost var whole := Declarations(tokens, 0);
      JoinNothing(whole);
      while Current().kind != Eof
        invariant Valid()
        invariant whole == Join(declarations, errors, Declarations(tokens, index))
        decreases |tokens| - index
      {
        ghost var round := DeclarationAt(tokens, index);
        JoinTwice(declarations, errors, round.value, round.errors, Declarations(tokens, round.next));
        var block := ParseDeclaration();
        declarations := declarations + block;
      }
      assert declarations + [] == declarations && errors + [] == errors;
      if errors == [] {
        r := Ok(Program(sourceName, declarations));
      } else {
        r := Err(errors);
      }
    }
  }

  method Parse(tokens: seq<Token>, sourceName: string) returns (r: Result<Program, seq<ParseError>>)
    requires EndsInEof(tokens)
    ensures r == ParsedProgram(tokens, sourceName)
  {
    var parser := new Parser(tokens);
    r := parser.ParseProgram(sourceName);
  }
}
