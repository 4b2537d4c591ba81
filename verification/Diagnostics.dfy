/** What the parser's diagnostics mean: each names a token that cannot stand there, in source order. */
module Diagnostics {
  import opened Lexer
  import opened Grammar

  // ---- where recovery goes on ------------------------------------------------------------

  /** The first token from i on that is the end of the file or one of two symbols. */
  predicate FirstStop(toks: seq<Token>, i: nat, s: nat, a: Symbol, b: Symbol) {
    && i <= s < |toks|
    && (toks[s].kind == Eof || toks[s].kind == Sym(a) || toks[s].kind == Sym(b))
    && forall k :: i <= k < s ==> toks[k].kind != Eof && toks[k].kind != Sym(a) && toks[k].kind != Sym(b)
  }

  lemma {:induction false} SkipFinds(toks: seq<Token>, i: nat, stops: Symbol -> bool, a: Symbol, b: Symbol)
    requires Inside(toks, i) && forall s :: stops(s) <==> s == a || s == b
    ensures FirstStop(toks, i, SkipTo(toks, i, stops), a, b)
    decreases |toks| - i
  {
    if toks[i].kind != Eof && toks[i].kind != Sym(a) && toks[i].kind != Sym(b) {
      SkipFinds(toks, i + 1, stops, a, b);
    }
  }

  /** After a bad declaration: just past the next closing brace, or at the end. */
  lemma RecoverTopIs(toks: seq<Token>, i: nat) returns (s: nat)
    requires Inside(toks, i)
    ensures FirstStop(toks, i, s, RBrace, RBrace)
    ensures RecoverTop(toks, i) == if toks[s].kind == Eof then s else s + 1
  {
    s := SkipTo(toks, i, StopsTop);
    SkipFinds(toks, i, StopsTop, RBrace, RBrace);
  }

  /** After a bad field: just past the next semicolon, or at the next closing brace or the end. */
  lemma RecoverFieldIs(toks: seq<Token>, i: nat) returns (s: nat)
    requires Inside(toks, i)
    ensures FirstStop(toks, i, s, Semicolon, RBrace)
    ensures RecoverField(toks, i) == if toks[s].kind == Sym(Semicolon) then s + 1 else s
  {
    s := SkipTo(toks, i, StopsField);
    SkipFinds(toks, i, StopsField, Semicolon, RBrace);
  }

  /** After a bad item: just past the next comma, or at the next closing bracket or the end. */
  lemma RecoverListIs(toks: seq<Token>, i: nat) returns (s: nat)
    requires Inside(toks, i)
    ensures FirstStop(toks, i, s, Comma, RBracket)
    ensures RecoverList(toks, i) == if toks[s].kind == Sym(Comma) then s + 1 else s
  {
    s := SkipTo(toks, i, StopsList);
    SkipFinds(toks, i, StopsList, Comma, RBracket);
  }

  // ---- what each diagnostic says -----------------------------------------------------------

  predicate IsScalar(kind: TokenKind) {
    kind.Ident? || kind.Number? || kind.Str?
  }

  /** The token at k is what this code complains of, after what stands before it. */
  predicate Unexpected(toks: seq<Token>, k: nat, code: ParseCode)
    requires k < |toks|
  {
    var kind := toks[k].kind;
    match code
    case P0001 => !kind.Ident? && kind != Eof
    case P0002 => k >= 1 && toks[k - 1].kind.Ident? && !kind.Ident?
    case P0003 => k >= 2 && toks[k - 2].kind.Ident? && toks[k - 1].kind.Ident? && kind != Sym(LBrace)
    case P0004 => !kind.Ident? && kind != Sym(RBrace) && kind != Eof
    case P0005 => k >= 2 && kind != Sym(Semicolon)
    case P0006 => k >= 3 && kind == Eof
    case P0007 => k >= 1 && toks[k - 1].kind.Ident? && !IsScalar(kind) && kind != Sym(LBracket)
    case P0008 => k >= 1 && !IsScalar(kind) && kind != Sym(RBracket) && kind != Eof
    case P0009 => k >= 2 && IsScalar(toks[k - 1].kind) && kind != Sym(Comma) && kind != Sym(RBracket)
    case P0010 => k >= 2 && toks[k - 2].kind.Number? && toks[k - 1].kind == Sym(DotDot) && !kind.Number?
    case P0011 => k >= 2 && toks[k - 2].kind.Ident? && toks[k - 1].kind == Sym(DotDot) && !kind.Number?
    case P0012 => k >= 1 && kind == Eof
  }

  /** Diagnostics about tokens from i to j, in order. */
  ghost predicate Explained(toks: seq<Token>, i: nat, j: nat, errors: seq<ParseError>)
    decreases errors
  {
    if errors == [] then i <= j
    else
      exists k: nat :: i <= k <= j && k < |toks| && errors[0].span == toks[k].span
                       && Unexpected(toks, k, errors[0].code) && Explained(toks, k, j, errors[1..])
  }

  lemma {:induction false} ExplainedWider(toks: seq<Token>, h: nat, i: nat, j: nat, k: nat, errors: seq<ParseError>)
    requires h <= i && j <= k && Explained(toks, i, j, errors)
    ensures Explained(toks, h, k, errors)
    decreases errors
  {
    hide Unexpected;
    if errors != [] {
      var at: nat :| i <= at <= j && at < |toks| && errors[0].span == toks[at].span
                     && Unexpected(toks, at, errors[0].code) && Explained(toks, at, j, errors[1..]);
      ExplainedWider(toks, at, at, j, k, errors[1..]);
      assert h <= at <= k;
    }
  }

  lemma {:induction false} ExplainedJoins(
    toks: seq<Token>, i: nat, j: nat, k: nat, a: seq<ParseError>, b: seq<ParseError>
  )
    requires i <= j <= k && Explained(toks, i, j, a) && Explained(toks, j, k, b)
    ensures Explained(toks, i, k, a + b)
    decreases a
  {
    hide Unexpected;
    if a == [] {
      assert a + b == b;
      ExplainedWider(toks, i, j, k, k, b);
    } else {
      var at: nat :| i <= at <= j && at < |toks| && a[0].span == toks[at].span
                     && Unexpected(toks, at, a[0].code) && Explained(toks, at, j, a[1..]);
      ExplainedJoins(toks, at, j, k, a[1..], b);
      assert (a + b)[0] == a[0] && (a + b)[1..] == a[1..] + b;
    }
  }

  lemma OneExplained(toks: seq<Token>, i: nat, k: nat, j: nat, code: ParseCode)
    requires Inside(toks, k) && i <= k <= j && Unexpected(toks, k, code)
    ensures Explained(toks, i, j, ErrorAt(toks, k, code))
  {
    hide Unexpected;
    var errors := ErrorAt(toks, k, code);
    assert errors[1..] == [] && Explained(toks, k, j, errors[1..]);
  }

  lemma NoneExplained(toks: seq<Token>, i: nat, j: nat)
    requires i <= j
    ensures Explained(toks, i, j, [])
  {
  }

  // ---- every diagnostic of the parser --------------------------------------------------------

  lemma ItemExplained(toks: seq<Token>, i: nat)
    requires Inside(toks, i) && i >= 1 && !ListEnds(toks, i)
    ensures Explained(toks, i, ItemAt(toks, i).next, ItemAt(toks, i).errors)
  {
    hide Explained, SkipTo;
    var p := ItemAt(toks, i);
    if Scalar(toks[i].kind).None? {
      OneExplained(toks, i, i, p.next, P0008);
    } else if !AtSymbol(toks, i + 1, Comma) && !AtSymbol(toks, i + 1, RBracket) {
      OneExplained(toks, i, i + 1, p.next, P0009);
    } else {
      NoneExplained(toks, i, p.next);
    }
  }

  lemma {:induction false} ItemsExplained(toks: seq<Token>, i: nat)
    requires Inside(toks, i) && i >= 1
    ensures Explained(toks, i, ListItems(toks, i).next, ListItems(toks, i).errors)
    decreases |toks| - i
  {
    hide Explained, ItemAt;
    if ListEnds(toks, i) {
      NoneExplained(toks, i, i);
    } else {
      var item := ItemAt(toks, i);
      var rest := ListItems(toks, item.next);
      ItemExplained(toks, i);
      ItemsExplained(toks, item.next);
      ExplainedJoins(toks, i, item.next, rest.next, item.errors, rest.errors);
    }
  }

  lemma ListExplained(toks: seq<Token>, i: nat)
    requires Inside(toks, i) && AtSymbol(toks, i, LBracket)
    ensures Explained(toks, i, ListValue(toks, i).next, ListValue(toks, i).errors)
  {
    hide Explained, ListItems;
    var items := ListItems(toks, i + 1);
    ItemsExplained(toks, i + 1);
    if AtSymbol(toks, items.next, RBracket) {
      ExplainedWider(toks, i, i + 1, items.next, items.next + 1, items.errors);
    } else {
      OneExplained(toks, items.next, items.next, items.next, P0012);
      ExplainedJoins(toks, i + 1, items.next, items.next, items.errors, ErrorAt(toks, items.next, P0012));
      ExplainedWider(toks, i, i + 1, items.next, items.next, items.errors + ErrorAt(toks, items.next, P0012));
    }
  }

  lemma RangeExplained(toks: seq<Token>, i: nat, start: string, code: ParseCode)
    requires Inside(toks, i) && (code == P0010 || code == P0011)
    requires i >= 2 && toks[i - 1].kind == Sym(DotDot)
    requires if code == P0010 then toks[i - 2].kind.Number? else toks[i - 2].kind.Ident?
    ensures Explained(toks, i, RangeValue(toks, i, start, code).next, RangeValue(toks, i, start, code).errors)
  {
    hide Explained;
    if toks[i].kind.Number? {
      NoneExplained(toks, i, i + 1);
    } else {
      OneExplained(toks, i, i, i, code);
    }
  }

  lemma ValueExplained(toks: seq<Token>, i: nat)
    requires Inside(toks, i) && i >= 1 && toks[i - 1].kind.Ident?
    ensures Explained(toks, i, ParsedValue(toks, i).next, ParsedValue(toks, i).errors)
  {
    hide Explained, ListValue, RangeValue;
    var p := ParsedValue(toks, i);
    if AtSymbol(toks, i, LBracket) {
      ListExplained(toks, i);
    } else if toks[i].kind.Sym? || toks[i].kind == Eof {
      OneExplained(toks, i, i, i, P0007);
    } else if !toks[i].kind.Str? && AtSymbol(toks, i + 1, DotDot) {
      var code := if toks[i].kind.Number? then P0010 else P0011;
      RangeExplained(toks, i + 2, toks[i].kind.text, code);
      ExplainedWider(toks, i, i + 2, p.next, p.next, p.errors);
    } else {
      NoneExplained(toks, i, p.next);
    }
  }

  lemma FieldExplained(toks: seq<Token>, i: nat)
    requires Inside(toks, i) && i >= 1 && !AtSymbol(toks, i, RBrace) && !AtEof(toks, i)
    ensures Explained(toks, i, FieldAt(toks, i).next, FieldAt(toks, i).errors)
  {
    hide Explained, ParsedValue, SkipTo;
    var p := FieldAt(toks, i);
    if !toks[i].kind.Ident? {
      OneExplained(toks, i, i, p.next, P0004);
    } else {
      var value := ParsedValue(toks, i + 1);
      ValueExplained(toks, i + 1);
      ExplainedWider(toks, i, i + 1, value.next, value.next, value.errors);
      if value.value.Some? && !AtSymbol(toks, value.next, Semicolon) {
        OneExplained(toks, value.next, value.next, p.next, P0005);
        ExplainedJoins(toks, i, value.next, p.next, value.errors, ErrorAt(toks, value.next, P0005));
      } else {
        ExplainedWider(toks, i, i, value.next, p.next, value.errors);
      }
    }
  }

  lemma {:induction false} FieldsExplained(toks: seq<Token>, i: nat)
    requires Inside(toks, i) && i >= 1
    ensures Explained(toks, i, Fields(toks, i).next, Fields(toks, i).errors)
    decreases |toks| - i
  {
    hide Explained, FieldAt;
    if BlockEnds(toks, i) {
      NoneExplained(toks, i, i);
    } else {
      var field := FieldAt(toks, i);
      var rest := Fields(toks, field.next);
      FieldExplained(toks, i);
      FieldsExplained(toks, field.next);
      ExplainedJoins(toks, i, field.next, rest.next, field.errors, rest.errors);
    }
  }

  lemma ClosedExplained(toks: seq<Token>, i: nat)
    requires Inside(toks, i) && i >= 3
    ensures Explained(toks, i, ClosedFields(toks, i).next, ClosedFields(toks, i).errors)
  {
    hide Explained, Fields;
    var fields := Fields(toks, i);
    FieldsExplained(toks, i);
    if AtSymbol(toks, fields.next, RBrace) {
      ExplainedWider(toks, i, i, fields.next, fields.next + 1, fields.errors);
    } else {
      OneExplained(toks, fields.next, fields.next, fields.next, P0006);
      ExplainedJoins(toks, i, fields.next, fields.next, fields.errors, ErrorAt(toks, fields.next, P0006));
    }
  }

  lemma BlockExplained(toks: seq<Token>, i: nat)
    requires Inside(toks, i) && !AtEof(toks, i)
    ensures Explained(toks, i, BlockAt(toks, i).next, BlockAt(toks, i).errors)
  {
    hide Explained, ClosedFields;
    var p := BlockAt(toks, i);
    if !toks[i].kind.Ident? {
      OneExplained(toks, i, i, p.next, P0001);
    } else if !toks[i + 1].kind.Ident? {
      OneExplained(toks, i, i + 1, p.next, P0002);
    } else if !AtSymbol(toks, i + 2, LBrace) {
      OneExplained(toks, i, i + 2, p.next, P0003);
    } else {
      ClosedExplained(toks, i + 3);
      ExplainedWider(toks, i, i + 3, p.next, p.next, p.errors);
    }
  }

  lemma {:induction false} DeclarationsExplained(toks: seq<Token>, i: nat)
    requires Inside(toks, i)
    ensures Explained(toks, i, Declarations(toks, i).next, Declarations(toks, i).errors)
    decreases |toks| - i
  {
    hide Explained, BlockAt, RecoverTop;
    if AtEof(toks, i) {
      NoneExplained(toks, i, i);
    } else {
      var block := DeclarationAt(toks, i);
      var rest := Declarations(toks, block.next);
      BlockExplained(toks, i);
      ExplainedWider(toks, i, i, BlockAt(toks, i).next, block.next, block.errors);
      DeclarationsExplained(toks, block.next);
      ExplainedJoins(toks, i, block.next, rest.next, block.errors, rest.errors);
    }
  }

  /**
   Every diagnostic of a refused program names a token that cannot stand where
   it does, and they come in source order.
   */
  lemma DiagnosticsAreExplained(toks: seq<Token>, sourceName: string)
    requires EndsInEof(toks) && ParsedProgram(toks, sourceName).Err?
    ensures var errors := ParsedProgram(toks, sourceName).error;
            errors != [] && Explained(toks, 0, |toks| - 1, errors)
  {
    hide Declarations, Explained;
    DeclarationsExplained(toks, 0);
    ExplainedWider(toks, 0, 0, Declarations(toks, 0).next, |toks| - 1, Declarations(toks, 0).errors);
  }
}
