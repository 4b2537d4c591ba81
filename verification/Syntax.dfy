/**
 The language as a grammar over tokens, without a parser: which tokens from one
 index up to another are which tree.  The parser accepts exactly its programs.
 */
module Syntax {
  import opened Wrappers
  import opened Lexer
  import opened Ast
  import opened Grammar

  // ---- the grammar ------------------------------------------------------------------

  /** A word, a number or a string. */
  predicate ScalarIs(kind: TokenKind, value: Value) {
    match value
    case Identifier(name) => kind == Ident(name)
    case Numeric(number) => kind == Number(number)
    case Text(text) => kind == Str(text)
    case _ => false
  }

  /** Scalars with commas between them, and perhaps one after the last. */
  predicate ItemsAre(toks: seq<Token>, i: nat, j: nat, items: seq<Value>)
    decreases items
  {
    if items == [] then i == j
    else
      && i < j <= |toks| && ScalarIs(toks[i].kind, items[0])
      && ((|items| == 1 && j == i + 1)
          || (i + 1 < j && toks[i + 1].kind == Sym(Comma) && ItemsAre(toks, i + 2, j, items[1..])))
  }

  /** A scalar, a number and its unit, a range of two, or a bracketed list. */
  predicate ValueIs(toks: seq<Token>, i: nat, j: nat, value: Value) {
    && i < j <= |toks|
    && match value
       case Quantity(amount, unit) => j == i + 2 && toks[i].kind == Number(amount) && toks[i + 1].kind == Ident(unit)
       case Range(start, end) =>
         && j == i + 3 && (toks[i].kind == Number(start) || toks[i].kind == Ident(start))
         && toks[i + 1].kind == Sym(DotDot) && toks[i + 2].kind == Number(end)
       case List(items) =>
         && i + 2 <= j && toks[i].kind == Sym(LBracket) && toks[j - 1].kind == Sym(RBracket)
         && ItemsAre(toks, i + 1, j - 1, items)
       case _ => j == i + 1 && ScalarIs(toks[i].kind, value)
  }

  /** From the start of the first token to the end of the one that follows. */
  predicate SpanIs(toks: seq<Token>, i: nat, j: nat, span: Span) {
    && i < |toks| && j < |toks|
    && span.start == toks[i].span.start && span.line == toks[i].span.line && span.column == toks[i].span.column
    && span.end == toks[j].span.end
  }

  /** A word, a value and a semicolon. */
  predicate FieldIs(toks: seq<Token>, i: nat, j: nat, field: Field) {
    && i + 3 <= j < |toks| && toks[i].kind == Ident(field.key) && ValueIs(toks, i + 1, j - 1, field.value)
    && toks[j - 1].kind == Sym(Semicolon) && SpanIs(toks, i, j, field.span)
  }

  ghost predicate FieldsAre(toks: seq<Token>, i: nat, j: nat, fields: seq<Field>)
    decreases fields
  {
    if fields == [] then i == j
    else exists k: nat :: FieldIs(toks, i, k, fields[0]) && FieldsAre(toks, k, j, fields[1..])
  }

  /** Two words and the fields in braces. */
  ghost predicate BlockIs(toks: seq<Token>, i: nat, j: nat, block: Block) {
    && i + 4 <= j < |toks| && toks[i].kind == Ident(block.kind) && toks[i + 1].kind == Ident(block.name)
    && toks[i + 2].kind == Sym(LBrace) && FieldsAre(toks, i + 3, j - 1, block.fields)
    && toks[j - 1].kind == Sym(RBrace) && SpanIs(toks, i, j, block.span)
  }

  ghost predicate BlocksAre(toks: seq<Token>, i: nat, j: nat, blocks: seq<Block>)
    decreases blocks
  {
    if blocks == [] then i == j
    else exists k: nat :: BlockIs(toks, i, k, blocks[0]) && BlocksAre(toks, k, j, blocks[1..])
  }

  /** Blocks up to the end of the file. */
  ghost predicate DeclarationsAre(toks: seq<Token>, blocks: seq<Block>) {
    exists e: nat :: e < |toks| && toks[e].kind == Eof && BlocksAre(toks, 0, e, blocks)
  }

  // ---- what parses without errors is in the grammar ------------------------------------------

  lemma {:induction false} ItemsSound(toks: seq<Token>, i: nat)
    requires Inside(toks, i) && ListItems(toks, i).errors == []
    ensures ItemsAre(toks, i, ListItems(toks, i).next, ListItems(toks, i).value)
    decreases |toks| - i
  {
    if !ListEnds(toks, i) {
      var item := ItemAt(toks, i);
      var rest := ListItems(toks, item.next);
      ItemsSound(toks, item.next);
      assert item.errors == [] && item.value + rest.value == ListItems(toks, i).value;
      assert (item.value + rest.value)[1..] == rest.value;
    }
  }

  lemma ValueSound(toks: seq<Token>, i: nat)
    requires Inside(toks, i) && ParsedValue(toks, i).errors == []
    ensures var p := ParsedValue(toks, i); p.value.Some? && ValueIs(toks, i, p.next, p.value.value)
  {
    hide ListItems, ItemsAre;
    if AtSymbol(toks, i, LBracket) {
      var items := ListItems(toks, i + 1);
      ItemsSound(toks, i + 1);
    }
  }

  lemma FieldSound(toks: seq<Token>, i: nat)
    requires Inside(toks, i) && !AtSymbol(toks, i, RBrace) && !AtEof(toks, i) && FieldAt(toks, i).errors == []
    ensures var p := FieldAt(toks, i); |p.value| == 1 && FieldIs(toks, i, p.next, p.value[0])
  {
    hide ParsedValue, ValueIs, SkipTo;
    var key := ExpectIdent(toks, i, P0004);
    if key.value.Some? && ParsedValue(toks, key.next).errors == [] {
      ValueSound(toks, key.next);
    }
  }

  lemma {:induction false} FieldsSound(toks: seq<Token>, i: nat)
    requires Inside(toks, i) && Fields(toks, i).errors == []
    ensures FieldsAre(toks, i, Fields(toks, i).next, Fields(toks, i).value)
    decreases |toks| - i
  {
    hide FieldAt, FieldIs;
    if !BlockEnds(toks, i) {
      var field := FieldAt(toks, i);
      var rest := Fields(toks, field.next);
      assert field.errors == [] && rest.errors == [];
      FieldSound(toks, i);
      FieldsSound(toks, field.next);
      FirstAndRest(field.value, rest.value);
    }
  }

  lemma FirstAndRest<T>(one: seq<T>, rest: seq<T>)
    requires |one| == 1
    ensures (one + rest)[0] == one[0] && (one + rest)[1..] == rest && one + rest != []
  {
  }

  lemma BlockSound(toks: seq<Token>, i: nat)
    requires Inside(toks, i) && BlockAt(toks, i).errors == []
    ensures var p := BlockAt(toks, i); p.value.Some? && BlockIs(toks, i, p.next, p.value.value)
  {
    hide Fields, FieldsAre;
    if i + 2 < |toks| && Fields(toks, i + 3).errors == [] {
      FieldsSound(toks, i + 3);
    }
  }

  lemma {:induction false} DeclarationsSound(toks: seq<Token>, i: nat)
    requires Inside(toks, i) && Declarations(toks, i).errors == []
    ensures var p := Declarations(toks, i); AtEof(toks, p.next) && BlocksAre(toks, i, p.next, p.value)
    decreases |toks| - i
  {
    hide BlockAt, BlockIs, RecoverTop;
    if !AtEof(toks, i) {
      var block := DeclarationAt(toks, i);
      var rest := Declarations(toks, block.next);
      assert block.errors == [] && rest.errors == [];
      BlockSound(toks, i);
      DeclarationsSound(toks, block.next);
      FirstAndRest(block.value, rest.value);
    }
  }

  // ---- what is in the grammar parses without errors ----------------------------------------

  lemma {:induction false} ItemsComplete(toks: seq<Token>, i: nat, j: nat, items: seq<Value>)
    requires EndsInEof(toks) && ItemsAre(toks, i, j, items) && j < |toks| && toks[j].kind == Sym(RBracket)
    ensures i < |toks| && ListItems(toks, i) == Parsed(items, j, [])
    decreases items
  {
    if items != [] {
      if |items| == 1 && j == i + 1 {
        assert ListItems(toks, j) == Parsed([], j, []);
      } else {
        ItemsComplete(toks, i + 2, j, items[1..]);
      }
      assert [items[0]] + items[1..] == items;
    }
  }

  lemma ValueComplete(toks: seq<Token>, i: nat, j: nat, value: Value)
    requires EndsInEof(toks) && ValueIs(toks, i, j, value) && j < |toks| && toks[j].kind == Sym(Semicolon)
    ensures ParsedValue(toks, i) == Parsed(Some(value), j, [])
  {
    hide ListItems, ItemsAre;
    if value.List? {
      ItemsComplete(toks, i + 1, j - 1, value.items);
    }
  }

  lemma FieldComplete(toks: seq<Token>, i: nat, j: nat, field: Field)
    requires EndsInEof(toks) && FieldIs(toks, i, j, field)
    ensures FieldAt(toks, i) == Parsed([field], j, [])
  {
    hide ParsedValue, ValueIs, SkipTo;
    ValueComplete(toks, i + 1, j - 1, field.value);
  }

  lemma {:induction false} FieldsComplete(toks: seq<Token>, i: nat, j: nat, fields: seq<Field>)
    requires EndsInEof(toks) && FieldsAre(toks, i, j, fields) && j < |toks| && toks[j].kind == Sym(RBrace)
    ensures i < |toks| && Fields(toks, i) == Parsed(fields, j, [])
    decreases fields
  {
    hide FieldAt;
    if fields != [] {
      var k: nat :| FieldIs(toks, i, k, fields[0]) && FieldsAre(toks, k, j, fields[1..]);
      FieldComplete(toks, i, k, fields[0]);
      FieldsComplete(toks, k, j, fields[1..]);
      assert [fields[0]] + fields[1..] == fields;
    }
  }

  lemma BlockComplete(toks: seq<Token>, i: nat, j: nat, block: Block)
    requires EndsInEof(toks) && BlockIs(toks, i, j, block)
    ensures BlockAt(toks, i) == Parsed(Some(block), j, [])
  {
    hide Fields, FieldsAre;
    FieldsComplete(toks, i + 3, j - 1, block.fields);
  }

  lemma {:induction false} DeclarationsComplete(toks: seq<Token>, i: nat, j: nat, blocks: seq<Block>)
    requires EndsInEof(toks) && BlocksAre(toks, i, j, blocks) && j < |toks| && toks[j].kind == Eof
    ensures i < |toks| && Declarations(toks, i) == Parsed(blocks, j, [])
    decreases blocks
  {
    hide BlockAt;
    if blocks != [] {
      var k: nat :| BlockIs(toks, i, k, blocks[0]) && BlocksAre(toks, k, j, blocks[1..]);
      BlockComplete(toks, i, k, blocks[0]);
      DeclarationsComplete(toks, k, j, blocks[1..]);
      assert [blocks[0]] + blocks[1..] == blocks;
    }
  }

  // ---- the parser accepts exactly the programs of the grammar -------------------------------

  /** The parser answers with a program exactly when the tokens are that program, spans included. */
  lemma ParsesExactly(toks: seq<Token>, sourceName: string, program: Program)
    requires EndsInEof(toks)
    ensures ParsedProgram(toks, sourceName) == Ok(program)
            <==> program.sourceName == sourceName && DeclarationsAre(toks, program.declarations)
  {
    hide Declarations, BlocksAre;
    if ParsedProgram(toks, sourceName) == Ok(program) {
      DeclarationsSound(toks, 0);
      assert toks[Declarations(toks, 0).next].kind == Eof;
    }
    if program.sourceName == sourceName && DeclarationsAre(toks, program.declarations) {
      var e: nat :| e < |toks| && toks[e].kind == Eof && BlocksAre(toks, 0, e, program.declarations);
      DeclarationsComplete(toks, 0, e, program.declarations);
    }
  }

  /** So it refuses exactly the tokens that are no program, and no tokens are two. */
  lemma RefusesExactly(toks: seq<Token>, sourceName: string)
    requires EndsInEof(toks)
    ensures ParsedProgram(toks, sourceName).Err? <==> forall blocks :: !DeclarationsAre(toks, blocks)
    ensures forall a, b :: DeclarationsAre(toks, a) && DeclarationsAre(toks, b) ==> a == b
  {
    hide ParsedProgram, DeclarationsAre;
    forall blocks
      ensures DeclarationsAre(toks, blocks) <==> ParsedProgram(toks, sourceName) == Ok(Program(sourceName, blocks))
    {
      ParsesExactly(toks, sourceName, Program(sourceName, blocks));
    }
    if ParsedProgram(toks, sourceName).Ok? {
      var program := ParsedProgram(toks, sourceName).value;
      ParsesExactly(toks, sourceName, program);
      assert DeclarationsAre(toks, program.declarations);
    }
  }
}
