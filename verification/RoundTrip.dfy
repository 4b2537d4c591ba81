/**
 Printing and reading back: which syntax trees survive `parse(lex(format(p)))`
 up to spans, and what the others turn into.
 */
module RoundTrip {
  import opened Wrappers
  import opened Bytes
  import opened Lexer
  import opened LexicalText
  import opened Ast
  import opened Formatter
  import opened Grammar
  import opened Relex

  // ---- what a printed value reads back as -------------------------------------------

  /** A range whose four dots cannot be read back at all. */
  ghost predicate BrokenRange(v: Value) {
    v.Range? && !IsWordText(v.start) && EndsWithDot(v.start) && StartsWithDot(v.end)
  }

  ghost function RereadScalar(v: Value): Value {
    if v.Text? then Text(Latin(Encode(v.text))) else v
  }

  ghost function RereadItems(items: seq<Value>): seq<Value> {
    if items == [] then [] else [RereadScalar(items[0])] + RereadItems(items[1..])
  }

  /** Strings lose their encoding; the last dot of a range start moves to its end. */
  ghost function RereadValue(v: Value): Value {
    match v
    case Range(start, end) =>
      if !IsWordText(start) && EndsWithDot(start) then Range(start[..|start| - 1], "." + end) else v
    case List(items) => List(RereadItems(items))
    case _ => RereadScalar(v)
  }

  /** A field or block without its spans. */
  datatype BareBlock = BareBlock(kind: string, name: string, fields: seq<(string, Value)>)

  ghost function BareFields(fields: seq<Field>): seq<(string, Value)> {
    if fields == [] then [] else [(fields[0].key, fields[0].value)] + BareFields(fields[1..])
  }

  ghost function BareBlocks(blocks: seq<Block>): seq<BareBlock> {
    if blocks == [] then []
    else [BareBlock(blocks[0].kind, blocks[0].name, BareFields(blocks[0].fields))] + BareBlocks(blocks[1..])
  }

  ghost function RereadFields(fields: seq<Field>): seq<(string, Value)> {
    if fields == [] then [] else [(fields[0].key, RereadValue(fields[0].value))] + RereadFields(fields[1..])
  }

  ghost function RereadBlocks(blocks: seq<Block>): seq<BareBlock> {
    if blocks == [] then []
    else [BareBlock(blocks[0].kind, blocks[0].name, RereadFields(blocks[0].fields))] + RereadBlocks(blocks[1..])
  }

  ghost predicate BrokenFields(fields: seq<Field>) {
    exists f :: f in fields && BrokenRange(f.value)
  }

  ghost predicate BrokenBlocks(blocks: seq<Block>) {
    exists b :: b in blocks && BrokenFields(b.fields)
  }

  // ---- parsing the kinds of a printed tree ------------------------------------------

  /** From token i on, the kinds are exactly these. */
  ghost predicate KindsAt(toks: seq<Token>, i: nat, kinds: seq<TokenKind>) {
    && i + |kinds| <= |toks|
    && forall k :: i <= k < i + |kinds| ==> toks[k].kind == kinds[k - i]
  }

  lemma KindsSplit(toks: seq<Token>, i: nat, a: seq<TokenKind>, b: seq<TokenKind>)
    requires KindsAt(toks, i, a + b)
    ensures KindsAt(toks, i, a) && KindsAt(toks, i + |a|, b)
  {
    forall k | i <= k < i + |a| ensures toks[k].kind == a[k - i] {
      assert (a + b)[k - i] == a[k - i];
    }
    forall k | i + |a| <= k < i + |a| + |b| ensures toks[k].kind == b[k - i - |a|] {
      assert (a + b)[k - i] == b[k - i - |a|];
    }
  }

  lemma KindHere(toks: seq<Token>, i: nat, kinds: seq<TokenKind>, k: nat)
    requires KindsAt(toks, i, kinds) && k < |kinds|
    ensures i + k < |toks| && toks[i + k].kind == kinds[k]
  {
  }

  lemma {:induction false} KindsOfAt(tokens: seq<Token>, i: nat)
    requires i <= |tokens|
    ensures |KindsOf(tokens[i..])| == |tokens| - i
    ensures KindsAt(tokens, i, KindsOf(tokens[i..]))
    decreases |tokens| - i
  {
    if i < |tokens| {
      assert tokens[i..][1..] == tokens[i + 1..];
      KindsOfAt(tokens, i + 1);
      var rest := KindsOf(tokens[i + 1..]);
      assert KindsOf(tokens[i..]) == [tokens[i].kind] + rest;
      forall k | i <= k < |tokens| ensures tokens[k].kind == KindsOf(tokens[i..])[k - i] {
        if k > i {
          assert tokens[k].kind == rest[k - (i + 1)];
        }
      }
    }
  }

  lemma ItemsKindsSplit(items: seq<Value>, tail: seq<TokenKind>)
    requires items != []
    ensures |items| == 1 ==> ItemsKinds(items) + tail == [ScalarKind(items[0])] + tail
    ensures |items| > 1
            ==> ItemsKinds(items) + tail == [ScalarKind(items[0]), Sym(Comma)] + (ItemsKinds(items[1..]) + tail)
    ensures |ItemsKinds(items)| == if |items| == 1 then 1 else 2 + |ItemsKinds(items[1..])|
  {
  }

  lemma ScalarRereads(v: Value)
    requires LexicalScalar(v)
    ensures Scalar(ScalarKind(v)) == Some(RereadScalar(v))
    ensures !ScalarKind(v).Sym? && ScalarKind(v) != Eof
  {
  }

  lemma {:induction false} ParsesItems(toks: seq<Token>, i: nat, items: seq<Value>)
    requires EndsInEof(toks) && LexicalValue(List(items))
    requires KindsAt(toks, i, ItemsKinds(items) + [Sym(RBracket)])
    ensures i < |toks| && ListItems(toks, i) == Parsed(RereadItems(items), i + |ItemsKinds(items)|, [])
    decreases |items|
  {
    hide KindsAt, ScalarKind, RereadScalar, SkipTo, Scalar;
    var kinds := ItemsKinds(items) + [Sym(RBracket)];
    KindHere(toks, i, kinds, 0);
    if items != [] {
      var v, rest := items[0], items[1..];
      assert LexicalScalar(v);
      hide LexicalScalar;
      ItemsKindsSplit(items, [Sym(RBracket)]);
      ScalarRereads(v);
      KindHere(toks, i, kinds, 1);
      assert LexicalValue(List(rest));
      if |items| == 1 {
        assert ListItems(toks, i + 1) == Parsed([], i + 1, []);
        assert rest == [];
        ItemThen(toks, i, RereadScalar(v), [], i + 1);
      } else {
        KindsSplit(toks, i, [ScalarKind(v), Sym(Comma)], ItemsKinds(rest) + [Sym(RBracket)]);
        ParsesItems(toks, i + 2, rest);
        ItemThen(toks, i, RereadScalar(v), RereadItems(rest), i + 2 + |ItemsKinds(rest)|);
      }
    }
  }

  lemma ItemThen(toks: seq<Token>, i: nat, v: Value, rest: seq<Value>, next: nat)
    requires Inside(toks, i) && !ListEnds(toks, i) && Scalar(toks[i].kind) == Some(v)
    requires ItemAt(toks, i).errors == [] && ListItems(toks, ItemAt(toks, i).next) == Parsed(rest, next, [])
    ensures ListItems(toks, i) == Parsed([v] + rest, next, [])
  {
  }

  lemma ParsesList(toks: seq<Token>, i: nat, items: seq<Value>)
    requires EndsInEof(toks) && LexicalValue(List(items))
    requires KindsAt(toks, i, [Sym(LBracket)] + ItemsKinds(items) + [Sym(RBracket)])
    ensures i < |toks|
            && ParsedValue(toks, i) == Parsed(Some(List(RereadItems(items))), i + |ItemsKinds(items)| + 2, [])
  {
    hide KindsAt, ItemsKinds, RereadItems, ListItems;
    var kinds := ItemsKinds(items) + [Sym(RBracket)];
    assert [Sym(LBracket)] + ItemsKinds(items) + [Sym(RBracket)] == [Sym(LBracket)] + kinds;
    KindsSplit(toks, i, [Sym(LBracket)], kinds);
    KindHere(toks, i, [Sym(LBracket)], 0);
    KindHere(toks, i + 1, kinds, |ItemsKinds(items)|);
    ParsesItems(toks, i + 1, items);
  }

  /** A printed value parses to its reread form, or, for a broken range, with an error. */
  lemma ParsesValue(toks: seq<Token>, i: nat, v: Value)
    requires EndsInEof(toks) && LexicalValue(v)
    requires KindsAt(toks, i, ValueKinds(v) + [Sym(Semicolon)])
    ensures i < |toks| && |ValueKinds(v)| > 0
    ensures !BrokenRange(v) ==> ParsedValue(toks, i) == Parsed(Some(RereadValue(v)), i + |ValueKinds(v)|, [])
    ensures BrokenRange(v) ==> ParsedValue(toks, i).errors != []
  {
    var kinds := ValueKinds(v) + [Sym(Semicolon)];
    KindsSplit(toks, i, ValueKinds(v), [Sym(Semicolon)]);
    match v
    case List(items) => ParsesList(toks, i, items);
    case Range(start, end) =>
      WordStarts(start);
      WordStarts(end);
      assert toks[i].kind == kinds[0] && toks[i + 1].kind == kinds[1] && toks[i + 2].kind == kinds[2];
    case Quantity(amount, unit) =>
      assert toks[i].kind == kinds[0] && toks[i + 1].kind == kinds[1];
    case _ =>
      assert toks[i].kind == kinds[0] && toks[i + 1].kind == kinds[1];
  }

  lemma ParsesField(toks: seq<Token>, i: nat, f: Field)
    requires EndsInEof(toks) && IsWord(f.key) && LexicalValue(f.value)
    requires KindsAt(toks, i, FieldKinds(f))
    ensures i < |toks| && toks[i].kind == Ident(f.key)
    ensures !BrokenRange(f.value) ==>
              && FieldAt(toks, i).errors == [] && FieldAt(toks, i).next == i + |FieldKinds(f)|
              && BareFields(FieldAt(toks, i).value) == [(f.key, RereadValue(f.value))]
    ensures BrokenRange(f.value) ==> FieldAt(toks, i).errors != []
  {
    hide KindsAt, ParsedValue, ValueKinds, RereadValue, BrokenRange, LexicalValue, SkipTo;
    var kinds := ValueKinds(f.value);
    assert FieldKinds(f) == [Ident(f.key)] + (kinds + [Sym(Semicolon)]);
    KindsSplit(toks, i, [Ident(f.key)], kinds + [Sym(Semicolon)]);
    KindHere(toks, i, [Ident(f.key)], 0);
    KindHere(toks, i + 1, kinds + [Sym(Semicolon)], |kinds|);
    ParsesValue(toks, i + 1, f.value);
    if !BrokenRange(f.value) {
      OneBareField(FieldAt(toks, i).value);
    }
  }

  lemma OneBareField(fields: seq<Field>)
    requires |fields| == 1
    ensures BareFields(fields) == [(fields[0].key, fields[0].value)]
  {
    assert fields[1..] == [];
  }

  lemma {:induction false} BareAppend(a: seq<Field>, b: seq<Field>)
    ensures BareFields(a + b) == BareFields(a) + BareFields(b)
  {
    if a == [] {
      assert a + b == b;
    } else {
      assert (a + b)[1..] == a[1..] + b;
      BareAppend(a[1..], b);
    }
  }

  lemma FieldsThen(toks: seq<Token>, i: nat, first: seq<(string, Value)>, rest: seq<(string, Value)>)
    requires Inside(toks, i) && !BlockEnds(toks, i)
    ensures FieldAt(toks, i).errors != [] ==> Fields(toks, i).errors != []
    ensures Fields(toks, FieldAt(toks, i).next).errors != [] ==> Fields(toks, i).errors != []
    ensures FieldAt(toks, i).errors == [] && BareFields(FieldAt(toks, i).value) == first
            && Fields(toks, FieldAt(toks, i).next).errors == []
            && BareFields(Fields(toks, FieldAt(toks, i).next).value) == rest
            ==> Fields(toks, i).errors == [] && BareFields(Fields(toks, i).value) == first + rest
    ensures Fields(toks, i).next == Fields(toks, FieldAt(toks, i).next).next
  {
    hide FieldAt;
    BareAppend(FieldAt(toks, i).value, Fields(toks, FieldAt(toks, i).next).value);
  }

  lemma BrokenFieldsSplit(fields: seq<Field>)
    requires fields != []
    ensures BrokenFields(fields) <==> BrokenRange(fields[0].value) || BrokenFields(fields[1..])
  {
    assert fields == [fields[0]] + fields[1..];
  }

  lemma {:induction false} ParsesFields(toks: seq<Token>, i: nat, fields: seq<Field>)
    requires EndsInEof(toks) && LexicalFields(fields)
    requires KindsAt(toks, i, FieldsKinds(fields) + [Sym(RBrace)])
    ensures i < |toks|
    ensures !BrokenFields(fields) ==>
              && Fields(toks, i).errors == [] && Fields(toks, i).next == i + |FieldsKinds(fields)|
              && BareFields(Fields(toks, i).value) == RereadFields(fields)
    ensures BrokenFields(fields) ==> Fields(toks, i).errors != []
    decreases |fields|
  {
    hide KindsAt, BrokenRange, RereadValue, FieldKinds, LexicalValue, IsWord, FieldAt;
    if fields == [] {
      KindHere(toks, i, [] + [Sym(RBrace)], 0);
    } else {
      var f, rest := fields[0], fields[1..];
      assert IsWord(f.key) && LexicalValue(f.value) && LexicalFields(rest);
      assert FieldsKinds(fields) + [Sym(RBrace)] == FieldKinds(f) + (FieldsKinds(rest) + [Sym(RBrace)]);
      KindsSplit(toks, i, FieldKinds(f), FieldsKinds(rest) + [Sym(RBrace)]);
      ParsesField(toks, i, f);
      BrokenFieldsSplit(fields);
      hide BrokenFields, Fields, BareFields;
      FieldsThen(toks, i, [(f.key, RereadValue(f.value))], RereadFields(rest));
      if !BrokenRange(f.value) {
        ParsesFields(toks, i + |FieldKinds(f)|, rest);
      }
    }
  }

  lemma ParsesHeader(toks: seq<Token>, i: nat, kind: string, name: string)
    requires EndsInEof(toks) && KindsAt(toks, i, [Ident(kind), Ident(name), Sym(LBrace)])
    ensures i + 3 < |toks|
    ensures BlockAt(toks, i)
            == var body := ClosedFields(toks, i + 3);
               Parsed(Some(Block(kind, name, body.value, SpanBetween(toks, i, body.next))), body.next, body.errors)
  {
    hide ClosedFields;
    var kinds := [Ident(kind), Ident(name), Sym(LBrace)];
    KindHere(toks, i, kinds, 0);
    KindHere(toks, i, kinds, 1);
    KindHere(toks, i, kinds, 2);
  }

  lemma ParsesBlock(toks: seq<Token>, i: nat, b: Block)
    requires EndsInEof(toks) && LexicalBlock(b)
    requires KindsAt(toks, i, BlockKinds(b))
    ensures i < |toks| && toks[i].kind == Ident(b.kind)
    ensures !BrokenFields(b.fields) ==>
              && DeclarationAt(toks, i).errors == [] && DeclarationAt(toks, i).next == i + |BlockKinds(b)|
              && BareBlocks(DeclarationAt(toks, i).value) == [BareBlock(b.kind, b.name, RereadFields(b.fields))]
    ensures BrokenFields(b.fields) ==> DeclarationAt(toks, i).errors != []
  {
    hide KindsAt, Fields, FieldsKinds, BrokenFields, BareFields, RereadFields, LexicalFields, IsWord, SkipTo;
    var header, kinds := [Ident(b.kind), Ident(b.name), Sym(LBrace)], FieldsKinds(b.fields);
    assert BlockKinds(b) == header + (kinds + [Sym(RBrace)]);
    KindsSplit(toks, i, header, kinds + [Sym(RBrace)]);
    KindHere(toks, i, header, 0);
    KindHere(toks, i + 3, kinds + [Sym(RBrace)], |kinds|);
    ParsesHeader(toks, i, b.kind, b.name);
    ParsesFields(toks, i + 3, b.fields);
    hide BlockAt;
    OneBareBlock(DeclarationAt(toks, i).value);
  }

  lemma OneBareBlock(blocks: seq<Block>)
    requires |blocks| == 1
    ensures BareBlocks(blocks) == [BareBlock(blocks[0].kind, blocks[0].name, BareFields(blocks[0].fields))]
  {
    assert blocks[1..] == [];
  }

  lemma {:induction false} BareBlocksAppend(a: seq<Block>, b: seq<Block>)
    ensures BareBlocks(a + b) == BareBlocks(a) + BareBlocks(b)
  {
    if a == [] {
      assert a + b == b;
    } else {
      assert (a + b)[1..] == a[1..] + b;
      BareBlocksAppend(a[1..], b);
    }
  }

  lemma BlocksThen(toks: seq<Token>, i: nat, first: seq<BareBlock>, rest: seq<BareBlock>)
    requires Inside(toks, i) && !AtEof(toks, i)
    ensures DeclarationAt(toks, i).errors != [] ==> Declarations(toks, i).errors != []
    ensures Declarations(toks, DeclarationAt(toks, i).next).errors != [] ==> Declarations(toks, i).errors != []
    ensures DeclarationAt(toks, i).errors == [] && BareBlocks(DeclarationAt(toks, i).value) == first
            && Declarations(toks, DeclarationAt(toks, i).next).errors == []
            && BareBlocks(Declarations(toks, DeclarationAt(toks, i).next).value) == rest
            ==> Declarations(toks, i).errors == [] && BareBlocks(Declarations(toks, i).value) == first + rest
  {
    hide DeclarationAt;
    BareBlocksAppend(DeclarationAt(toks, i).value, Declarations(toks, DeclarationAt(toks, i).next).value);
  }

  lemma BrokenBlocksSplit(blocks: seq<Block>)
    requires blocks != []
    ensures BrokenBlocks(blocks) <==> BrokenFields(blocks[0].fields) || BrokenBlocks(blocks[1..])
  {
    hide BrokenFields;
    assert blocks == [blocks[0]] + blocks[1..];
  }

  lemma {:induction false} ParsesBlocks(toks: seq<Token>, i: nat, blocks: seq<Block>)
    requires EndsInEof(toks) && LexicalBlocks(blocks)
    requires KindsAt(toks, i, BlocksKinds(blocks) + [Eof])
    ensures i < |toks|
    ensures !BrokenBlocks(blocks) ==>
              Declarations(toks, i).errors == [] && BareBlocks(Declarations(toks, i).value) == RereadBlocks(blocks)
    ensures BrokenBlocks(blocks) ==> Declarations(toks, i).errors != []
    decreases |blocks|
  {
    hide KindsAt, BrokenFields, BlockKinds, RereadFields, LexicalBlock, DeclarationAt;
    if blocks == [] {
      KindHere(toks, i, [] + [Eof], 0);
    } else {
      var b, rest := blocks[0], blocks[1..];
      assert LexicalBlock(b) && LexicalBlocks(rest);
      assert BlocksKinds(blocks) + [Eof] == BlockKinds(b) + (BlocksKinds(rest) + [Eof]);
      KindsSplit(toks, i, BlockKinds(b), BlocksKinds(rest) + [Eof]);
      ParsesBlock(toks, i, b);
      BrokenBlocksSplit(blocks);
      hide BrokenBlocks, Declarations, BareBlocks;
      BlocksThen(toks, i, [BareBlock(b.kind, b.name, RereadFields(b.fields))], RereadBlocks(rest));
      if !BrokenFields(b.fields) {
        ParsesBlocks(toks, i + |BlockKinds(b)|, rest);
      }
    }
  }

  // ---- the whole pipeline --------------------------------------------------------------

  /** `lex` then `parse`, with all errors as one failure. */
  ghost function Read(s: seq<byte>): Option<seq<Block>> {
    var lexed := LexFrom(s, 0);
    if lexed.errors != [] || !EndsInEof(lexed.tokens) || Declarations(lexed.tokens, 0).errors != [] then None
    else Some(Declarations(lexed.tokens, 0).value)
  }

  lemma {:induction false} LexEndsInEof(s: seq<byte>, i: nat)
    requires i <= |s|
    ensures EndsInEof(LexFrom(s, i).tokens)
    decreases |s| - i
  {
    if i < |s| {
      hide Scan;
      LexEndsInEof(s, Scan(s, i).end);
    }
  }

  /** Reading back any printable tree: its reread form, or failure exactly on a broken range. */
  lemma FormattedReads(blocks: seq<Block>)
    requires LexicalBlocks(blocks)
    ensures var read := Read(Encode(BlocksText(blocks)));
            && (read.None? <==> BrokenBlocks(blocks))
            && (read.Some? ==> BareBlocks(read.value) == RereadBlocks(blocks))
  {
    var s := Encode(BlocksText(blocks));
    var tokens := LexFrom(s, 0).tokens;
    FormattedLexes(blocks);
    LexEndsInEof(s, 0);
    KindsOfAt(tokens, 0);
    assert tokens[0..] == tokens;
    ParsesBlocks(tokens, 0, blocks);
  }

  // ---- parser output is printable --------------------------------------------------------

  ghost predicate LexicalTokens(toks: seq<Token>) {
    forall k :: 0 <= k < |toks| ==> LexicalKind(toks[k].kind)
  }

  lemma {:induction false} ParsedItemsAreLexical(toks: seq<Token>, i: nat)
    requires Inside(toks, i) && LexicalTokens(toks)
    ensures LexicalValue(List(ListItems(toks, i).value))
    decreases |toks| - i
  {
    if !ListEnds(toks, i) {
      assert LexicalKind(toks[i].kind);
      ParsedItemsAreLexical(toks, ItemAt(toks, i).next);
    }
  }

  lemma ParsedValueIsLexical(toks: seq<Token>, i: nat)
    requires Inside(toks, i) && LexicalTokens(toks)
    ensures ParsedValue(toks, i).value.Some? ==> LexicalValue(ParsedValue(toks, i).value.value)
  {
    assert LexicalKind(toks[i].kind);
    assert i + 1 < |toks| ==> LexicalKind(toks[i + 1].kind);
    assert i + 2 < |toks| ==> LexicalKind(toks[i + 2].kind);
    if AtSymbol(toks, i, LBracket) {
      ParsedItemsAreLexical(toks, i + 1);
    }
  }

  lemma ParsedFieldIsLexical(toks: seq<Token>, i: nat)
    requires Inside(toks, i) && LexicalTokens(toks) && !BlockEnds(toks, i)
    ensures LexicalFields(FieldAt(toks, i).value)
  {
    hide ParsedValue, LexicalValue;
    assert LexicalKind(toks[i].kind);
    if toks[i].kind.Ident? {
      ParsedValueIsLexical(toks, i + 1);
    }
  }

  lemma {:induction false} ParsedFieldsAreLexical(toks: seq<Token>, i: nat)
    requires Inside(toks, i) && LexicalTokens(toks)
    ensures LexicalFields(Fields(toks, i).value)
    decreases |toks| - i
  {
    if !BlockEnds(toks, i) {
      hide FieldAt;
      ParsedFieldIsLexical(toks, i);
      ParsedFieldsAreLexical(toks, FieldAt(toks, i).next);
    }
  }

  lemma ParsedBlockIsLexical(toks: seq<Token>, i: nat)
    requires Inside(toks, i) && LexicalTokens(toks) && !AtEof(toks, i)
    ensures LexicalBlocks(DeclarationAt(toks, i).value)
  {
    hide Fields, LexicalFields;
    assert LexicalKind(toks[i].kind);
    assert i + 1 < |toks| ==> LexicalKind(toks[i + 1].kind);
    if i + 3 < |toks| {
      ParsedFieldsAreLexical(toks, i + 3);
    }
  }

  /** Whatever the parser builds from lexed tokens is a tree the formatter can spell. */
  lemma {:induction false} ParsedBlocksAreLexical(toks: seq<Token>, i: nat)
    requires Inside(toks, i) && LexicalTokens(toks)
    ensures LexicalBlocks(Declarations(toks, i).value)
    decreases |toks| - i
  {
    if !AtEof(toks, i) {
      hide DeclarationAt;
      ParsedBlockIsLexical(toks, i);
      ParsedBlocksAreLexical(toks, DeclarationAt(toks, i).next);
    }
  }

  // ---- the exact condition ---------------------------------------------------------------

  ghost predicate PlainScalar(v: Value) {
    v.Text? ==> IsAscii(v.text)
  }

  /** ASCII strings, and no range start that is a number ending in a dot. */
  ghost predicate PlainValue(v: Value) {
    match v
    case Range(start, _) => IsWordText(start) || !EndsWithDot(start)
    case List(items) => forall i :: 0 <= i < |items| ==> PlainScalar(items[i])
    case _ => PlainScalar(v)
  }

  ghost predicate PlainFields(fields: seq<Field>) {
    forall i :: 0 <= i < |fields| ==> PlainValue(fields[i].value)
  }

  ghost predicate PlainBlocks(blocks: seq<Block>) {
    forall i :: 0 <= i < |blocks| ==> PlainFields(blocks[i].fields)
  }

  lemma RereadScalarSame(v: Value)
    ensures RereadScalar(v) == v <==> PlainScalar(v)
  {
    if v.Text? {
      LatinOfEncode(v.text);
    }
  }

  lemma {:induction false} RereadItemsSame(items: seq<Value>)
    ensures |RereadItems(items)| == |items|
    ensures RereadItems(items) == items <==> forall i :: 0 <= i < |items| ==> PlainScalar(items[i])
  {
    if items != [] {
      RereadScalarSame(items[0]);
      RereadItemsSame(items[1..]);
      var reread := RereadItems(items);
      assert reread[1..] == RereadItems(items[1..]);
      assert forall i :: 1 <= i < |items| ==> items[1..][i - 1] == items[i];
      if forall i :: 0 <= i < |items| ==> PlainScalar(items[i]) {
        assert reread == [items[0]] + items[1..];
      }
      if reread == items {
        assert reread[0] == items[0];
        forall i | 0 <= i < |items| ensures PlainScalar(items[i]) {
          assert i > 0 ==> PlainScalar(items[1..][i - 1]);
        }
      }
    }
  }

  lemma RereadValueSame(v: Value)
    ensures RereadValue(v) == v <==> PlainValue(v)
  {
    match v
    case List(items) => RereadItemsSame(items);
    case Range(start, end) =>
    case _ => RereadScalarSame(v);
  }

  lemma {:induction false} RereadFieldsSame(fields: seq<Field>)
    ensures RereadFields(fields) == BareFields(fields) <==> PlainFields(fields)
  {
    if fields != [] {
      hide RereadValue, PlainValue;
      var f, rest := fields[0], fields[1..];
      RereadValueSame(f.value);
      RereadFieldsSame(rest);
      assert RereadFields(fields)[0] == (f.key, RereadValue(f.value))
             && RereadFields(fields)[1..] == RereadFields(rest);
      assert BareFields(fields)[0] == (f.key, f.value) && BareFields(fields)[1..] == BareFields(rest);
      assert PlainFields(fields) <==> PlainValue(f.value) && PlainFields(rest) by {
        assert forall i :: 1 <= i < |fields| ==> fields[i] == rest[i - 1];
        if PlainValue(f.value) && PlainFields(rest) {
          forall i | 0 <= i < |fields| ensures PlainValue(fields[i].value) {
            assert i > 0 ==> PlainValue(rest[i - 1].value);
          }
        }
      }
    }
  }

  lemma {:induction false} RereadBlocksSame(blocks: seq<Block>)
    ensures RereadBlocks(blocks) == BareBlocks(blocks) <==> PlainBlocks(blocks)
  {
    if blocks != [] {
      hide PlainFields;
      var b, rest := blocks[0], blocks[1..];
      RereadFieldsSame(b.fields);
      RereadBlocksSame(rest);
      assert RereadBlocks(blocks)[0] == BareBlock(b.kind, b.name, RereadFields(b.fields))
             && RereadBlocks(blocks)[1..] == RereadBlocks(rest);
      assert BareBlocks(blocks)[0] == BareBlock(b.kind, b.name, BareFields(b.fields))
             && BareBlocks(blocks)[1..] == BareBlocks(rest);
      assert PlainBlocks(blocks) <==> PlainFields(b.fields) && PlainBlocks(rest) by {
        assert forall i :: 1 <= i < |blocks| ==> blocks[i] == rest[i - 1];
        if PlainFields(b.fields) && PlainBlocks(rest) {
          forall i | 0 <= i < |blocks| ensures PlainFields(blocks[i].fields) {
            assert i > 0 ==> PlainFields(rest[i - 1].fields);
          }
        }
      }
    }
  }

  lemma BareFieldsDetermine(a: seq<Field>, b: seq<Field>)
    requires BareFields(a) == BareFields(b)
    ensures LexicalFields(a) <==> LexicalFields(b)
  {
    assert |BareFields(a)| == |BareFields(b)|;
    BareFieldsIndex(a);
    BareFieldsIndex(b);
  }

  lemma {:induction false} BareFieldsIndex(a: seq<Field>)
    ensures |BareFields(a)| == |a|
    ensures forall i :: 0 <= i < |a| ==> BareFields(a)[i] == (a[i].key, a[i].value)
  {
    if a != [] {
      BareFieldsIndex(a[1..]);
    }
  }

  lemma {:induction false} BareBlocksIndex(a: seq<Block>)
    ensures |BareBlocks(a)| == |a|
    ensures forall i :: 0 <= i < |a| ==> BareBlocks(a)[i] == BareBlock(a[i].kind, a[i].name, BareFields(a[i].fields))
  {
    if a != [] {
      BareBlocksIndex(a[1..]);
    }
  }

  lemma BareBlocksDetermine(a: seq<Block>, b: seq<Block>)
    requires BareBlocks(a) == BareBlocks(b) && LexicalBlocks(a)
    ensures LexicalBlocks(b)
  {
    BareBlocksIndex(a);
    BareBlocksIndex(b);
    forall i | 0 <= i < |b| ensures LexicalBlock(b[i]) {
      assert BareBlocks(a)[i] == BareBlocks(b)[i];
      BareFieldsDetermine(a[i].fields, b[i].fields);
      assert LexicalBlock(a[i]);
    }
  }

  /** Printing and reading back gives the same tree up to spans. */
  ghost predicate RoundTrips(blocks: seq<Block>) {
    var read := Read(Encode(BlocksText(blocks)));
    read.Some? && BareBlocks(read.value) == BareBlocks(blocks)
  }

  /**
   The round trip holds exactly for trees of lexemes with flat lists, ASCII
   strings, and no range that starts with a number ending in a dot.
   */
  lemma RoundTripsIff(blocks: seq<Block>)
    ensures RoundTrips(blocks) <==> LexicalBlocks(blocks) && PlainBlocks(blocks)
  {
    if RoundTrips(blocks) {
      var s := Encode(BlocksText(blocks));
      var tokens := LexFrom(s, 0).tokens;
      LexedKindsAreLexical(s, 0);
      assert LexicalTokens(tokens);
      ParsedBlocksAreLexical(tokens, 0);
      BareBlocksDetermine(Read(s).value, blocks);
    }
    if LexicalBlocks(blocks) {
      FormattedReads(blocks);
      RereadBlocksSame(blocks);
      if PlainBlocks(blocks) {
        PlainIsNotBroken(blocks);
      }
    }
  }

  lemma PlainIsNotBroken(blocks: seq<Block>)
    requires PlainBlocks(blocks)
    ensures !BrokenBlocks(blocks)
  {
    forall b | b in blocks ensures !BrokenFields(b.fields) {
      assert PlainFields(b.fields);
      forall f | f in b.fields ensures !BrokenRange(f.value) {
        assert PlainValue(f.value);
      }
    }
  }

  /** For trees the parser itself built, only the strings and the range dots can fail. */
  lemma ParsedProgramRoundTrips(s: seq<byte>)
    requires Read(s).Some?
    ensures RoundTrips(Read(s).value) <==> PlainBlocks(Read(s).value)
  {
    var tokens := LexFrom(s, 0).tokens;
    LexedKindsAreLexical(s, 0);
    assert LexicalTokens(tokens);
    ParsedBlocksAreLexical(tokens, 0);
    RoundTripsIff(Read(s).value);
  }

  // ---- a tree that does not survive -----------------------------------------------------------

  ghost function OneRange(start: string, end: string): seq<Block> {
    [Block("phase", "p", [Field("r", Range(start, end), Span(0, 0, 1, 1))], Span(0, 0, 1, 1))]
  }

  lemma ExampleIsLexical()
    ensures IsWord("phase") && IsWord("p") && IsWord("r") && IsNumber("1.") && IsNumber("3")
  {
    EncodeAscii("phase");
    EncodeAscii("p");
    EncodeAscii("r");
    EncodeAscii("1.");
    EncodeAscii("3");
    assert Encode("1.") == [49, 46] && Encode("3") == [51];
    var b, c: seq<byte> := [49, 46], [51];
    assert RunEnd(b, 1, IsDigit) == 1 && RunEnd(b, 2, IsDigit) == 2 && FractionEnd(b, 1) == 2;
    assert RunEnd(c, 1, IsDigit) == 1 && FractionEnd(c, 1) == 1;
  }

  /** The range from `1.` to `3` prints as `1...3` and reads back as the range from `1` to `.3`. */
  lemma DotMovesToTheEnd()
    ensures var blocks := OneRange("1.", "3");
            var read := Read(Encode(BlocksText(blocks)));
            && LexicalBlocks(blocks) && !RoundTrips(blocks)
            && read.Some? && BareBlocks(read.value) == BareBlocks(OneRange("1", ".3"))
  {
    var blocks := OneRange("1.", "3");
    ExampleIsLexical();
    hide IsWord, IsNumber, Read, BlocksText, Encode;
    assert LexicalBlocks(blocks);
    assert !BrokenBlocks(blocks);
    FormattedReads(blocks);
    assert "1."[..1] == "1" && "." + "3" == ".3";
    assert RereadBlocks(blocks) == BareBlocks(OneRange("1", ".3"));
    assert !PlainFields(blocks[0].fields) by {
      assert !PlainValue(blocks[0].fields[0].value);
    }
    RoundTripsIff(blocks);
  }
}
