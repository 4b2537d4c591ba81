/** Lexing what the formatter prints: the token kinds every formatted program yields. */
module Relex {
  import opened Wrappers
  import opened Bytes
  import opened Lexer
  import opened LexicalText
  import opened Ast
  import opened Formatter

  // ---- syntax trees the lexer can spell ------------------------------------------

  ghost predicate LexicalScalar(v: Value) {
    match v
    case Identifier(name) => IsWord(name)
    case Numeric(number) => IsNumber(number)
    case Text(_) => true
    case _ => false
  }

  /** Identifiers and numbers are lexemes, and lists hold scalars only. */
  ghost predicate LexicalValue(v: Value) {
    match v
    case Quantity(amount, unit) => IsNumber(amount) && IsWord(unit)
    case Range(start, end) => (IsWord(start) || IsNumber(start)) && IsNumber(end)
    case List(items) => forall i :: 0 <= i < |items| ==> LexicalScalar(items[i])
    case _ => LexicalScalar(v)
  }

  ghost predicate LexicalFields(fields: seq<Field>) {
    forall i :: 0 <= i < |fields| ==> IsWord(fields[i].key) && LexicalValue(fields[i].value)
  }

  ghost predicate LexicalBlock(b: Block) {
    IsWord(b.kind) && IsWord(b.name) && LexicalFields(b.fields)
  }

  ghost predicate LexicalBlocks(blocks: seq<Block>) {
    forall i :: 0 <= i < |blocks| ==> LexicalBlock(blocks[i])
  }

  // ---- the kinds a printed tree lexes to ------------------------------------------

  predicate EndsWithDot(t: string) {
    t != "" && t[|t| - 1] == '.'
  }

  predicate StartsWithDot(t: string) {
    t != "" && t[0] == '.'
  }

  /** A range whose dots shift: the last dot of its start reads as part of its end. */
  function RangeKinds(start: string, end: string): seq<TokenKind>
    requires end != ""
  {
    if IsWordText(start) then [Ident(start), Sym(DotDot), Number(end)]
    else if !EndsWithDot(start) then [Number(start), Sym(DotDot), Number(end)]
    else
      var head := start[..|start| - 1];
      if StartsWithDot(end) then [Number(head), Sym(DotDot), Sym(DotDot), Number(end[1..])]
      else [Number(head), Sym(DotDot), Number("." + end)]
  }

  predicate IsWordText(t: string) {
    t != "" && (t[0] as int < 128) && IsWordStart(t[0] as int)
  }

  ghost function ScalarKind(v: Value): TokenKind {
    match v
    case Identifier(name) => Ident(name)
    case Numeric(number) => Number(number)
    case Text(text) => Str(Latin(Encode(text)))
    case _ => Eof
  }

  ghost function ItemsKinds(items: seq<Value>): seq<TokenKind> {
    if items == [] then []
    else if |items| == 1 then [ScalarKind(items[0])]
    else [ScalarKind(items[0]), Sym(Comma)] + ItemsKinds(items[1..])
  }

  ghost function ValueKinds(v: Value): seq<TokenKind>
    requires LexicalValue(v)
  {
    match v
    case Quantity(amount, unit) => [Number(amount), Ident(unit)]
    case Range(start, end) => RangeKinds(start, end)
    case List(items) => [Sym(LBracket)] + ItemsKinds(items) + [Sym(RBracket)]
    case _ => [ScalarKind(v)]
  }

  ghost function FieldKinds(f: Field): seq<TokenKind>
    requires LexicalValue(f.value)
  {
    [Ident(f.key)] + ValueKinds(f.value) + [Sym(Semicolon)]
  }

  ghost function FieldsKinds(fields: seq<Field>): seq<TokenKind>
    requires LexicalFields(fields)
  {
    if fields == [] then [] else FieldKinds(fields[0]) + FieldsKinds(fields[1..])
  }

  ghost function BlockKinds(b: Block): seq<TokenKind>
    requires LexicalBlock(b)
  {
    [Ident(b.kind), Ident(b.name), Sym(LBrace)] + FieldsKinds(b.fields) + [Sym(RBrace)]
  }

  ghost function BlocksKinds(blocks: seq<Block>): seq<TokenKind>
    requires LexicalBlocks(blocks)
  {
    if blocks == [] then [] else BlockKinds(blocks[0]) + BlocksKinds(blocks[1..])
  }

  // ---- reading a piece of the input ------------------------------------------------

  ghost function KindsOf(tokens: seq<Token>): seq<TokenKind> {
    if tokens == [] then [] else [tokens[0].kind] + KindsOf(tokens[1..])
  }

  lemma {:induction false} KindsAppend(a: seq<Token>, b: seq<Token>)
    ensures KindsOf(a + b) == KindsOf(a) + KindsOf(b)
  {
    if a == [] {
      assert a + b == b;
    } else {
      assert (a + b)[1..] == a[1..] + b;
      KindsAppend(a[1..], b);
    }
  }

  /** From i the lexer yields exactly these kinds, without errors, and goes on at j. */
  ghost predicate Reads(s: seq<byte>, i: nat, j: nat, kinds: seq<TokenKind>) {
    && i <= |s| && j <= |s|
    && KindsOf(LexFrom(s, i).tokens) == kinds + KindsOf(LexFrom(s, j).tokens)
    && LexFrom(s, i).errors == LexFrom(s, j).errors
  }

  lemma ReadsThen(s: seq<byte>, i: nat, j: nat, k: nat, a: seq<TokenKind>, b: seq<TokenKind>)
    requires Reads(s, i, j, a) && Reads(s, j, k, b)
    ensures Reads(s, i, k, a + b)
  {
    var rest := KindsOf(LexFrom(s, k).tokens);
    assert a + (b + rest) == a + b + rest;
  }

  lemma ReadsNothing(s: seq<byte>, i: nat)
    requires i <= |s|
    ensures Reads(s, i, i, [])
  {
    assert [] + KindsOf(LexFrom(s, i).tokens) == KindsOf(LexFrom(s, i).tokens);
  }

  /** One error-free lexeme. */
  lemma ReadsLexeme(s: seq<byte>, i: nat, kinds: seq<TokenKind>)
    requires i < |s| && Scan(s, i).errors == [] && KindsOf(Scan(s, i).tokens) == kinds
    ensures Reads(s, i, Scan(s, i).end, kinds)
  {
    hide Scan;
    var x := Scan(s, i);
    var rest := LexFrom(s, x.end);
    KindsAppend(x.tokens, rest.tokens);
    assert [] + rest.errors == rest.errors;
  }

  lemma OneKind(t: Token)
    ensures KindsOf([t]) == [t.kind]
  {
    assert [t][1..] == [];
  }

  /** The text w, encoded, stands at offset i. */
  ghost predicate HasText(s: seq<byte>, i: nat, w: string) {
    i + |Encode(w)| <= |s| && s[i..i + |Encode(w)|] == Encode(w)
  }

  ghost function Past(i: nat, w: string): nat {
    i + |Encode(w)|
  }

  lemma Split(s: seq<byte>, i: nat, a: string, b: string)
    requires HasText(s, i, a + b)
    ensures HasText(s, i, a) && HasText(s, Past(i, a), b) && Past(i, a + b) == Past(Past(i, a), b)
  {
    hide Encode;
    EncodeConcat(a, b);
    var ea, eb, whole := Encode(a), Encode(b), s[i..i + |Encode(a + b)|];
    assert s[i..i + |ea|] == whole[..|ea|];
    assert s[i + |ea|..i + |ea| + |eb|] == whole[|ea|..];
  }

  /** An ASCII text stands at i byte for character. */
  lemma AsciiAt(s: seq<byte>, i: nat, w: string)
    requires HasText(s, i, w) && IsAscii(w)
    ensures Past(i, w) == i + |w|
    ensures forall k :: 0 <= k < |w| ==> s[i + k] == w[k] as int
    ensures Latin(s[i..i + |w|]) == w
  {
    EncodeAscii(w);
    forall k | 0 <= k < |w| ensures s[i + k] == w[k] as int {
      assert s[i + k] == s[i..i + |w|][k] == Encode(w)[k];
    }
  }

  lemma ReadsWord(s: seq<byte>, i: nat, w: string)
    requires HasText(s, i, w) && IsWord(w)
    requires Past(i, w) == |s| || !IsWordByte(s[Past(i, w)])
    ensures Reads(s, i, Past(i, w), [Ident(w)])
  {
    AsciiAt(s, i, w);
    EncodeAscii(w);
    forall k | i <= k < i + |w| ensures IsWordByte(s[k]) {
      assert s[k] == s[i + (k - i)] == Encode(w)[k - i];
    }
    assert s[i + 0] == Encode(w)[0];
    RunEndsAt(s, i + 1, IsWordByte, i + |w|);
    OneKind(Scan(s, i).tokens[0]);
    ReadsLexeme(s, i, [Ident(w)]);
  }

  lemma NumberMovesTo(s: seq<byte>, i: nat, t: string)
    requires HasText(s, i, t) && IsNumber(t)
    requires var j := Past(i, t);
             j < |s| && (EndsNumber(s[j]) || (s[j] == DOT && At(s, j + 1) == Some(DOT) && !EndsWithDot(t)))
    ensures StartsNumber(s, i) && NumberEnd(s, i) == Past(i, t)
  {
    AsciiAt(s, i, t);
    EncodeAscii(t);
    var b, n := Encode(t), |t|;
    forall k | 0 <= k < n ensures SameByte(b, 0, s, i, k) {
    }
    assert b[n - 1] == t[n - 1] as int;
    NumberMoves(b, 0, s, i, n);
    assert SameByte(b, 0, s, i, 0);
    if b[0] == DOT {
      assert SameByte(b, 0, s, i, 1);
    }
  }

  lemma ReadsNumber(s: seq<byte>, i: nat, t: string)
    requires HasText(s, i, t) && IsNumber(t)
    requires var j := Past(i, t);
             j < |s| && (EndsNumber(s[j]) || (s[j] == DOT && At(s, j + 1) == Some(DOT) && !EndsWithDot(t)))
    ensures Reads(s, i, Past(i, t), [Number(t)])
  {
    hide Scan, NumberEnd;
    AsciiAt(s, i, t);
    NumberMovesTo(s, i, t);
    NumberIsNoSymbol(s, i);
    OneKind(Scan(s, i).tokens[0]);
    ReadsLexeme(s, i, [Number(t)]);
  }

  lemma NumberIsNoSymbol(s: seq<byte>, i: nat)
    requires i < |s| && StartsNumber(s, i)
    ensures Scan(s, i) == TokenLexeme(s, i, NumberEnd(s, i), Number(Latin(s[i..NumberEnd(s, i)])))
  {
  }

  lemma ScanSymbol(s: seq<byte>, i: nat, symbol: Symbol, width: nat)
    requires i < |s| && !IsSpace(s[i]) && s[i] != SLASH
    requires SymbolOf(s[i], At(s, i + 1)) == Some((symbol, width))
    ensures Scan(s, i) == TokenLexeme(s, i, i + width, Sym(symbol))
  {
  }

  lemma ReadsSymbol(s: seq<byte>, i: nat, symbol: Symbol, width: nat)
    requires i < |s| && !IsSpace(s[i]) && s[i] != SLASH
    requires SymbolOf(s[i], At(s, i + 1)) == Some((symbol, width))
    ensures Reads(s, i, i + width, [Sym(symbol)])
  {
    ScanSymbol(s, i, symbol, width);
    hide Scan;
    OneKind(Token(Sym(symbol), SpanOf(s, i, i + width)));
    ReadsLexeme(s, i, [Sym(symbol)]);
  }

  lemma ReadsSpace(s: seq<byte>, i: nat)
    requires i < |s| && IsSpace(s[i])
    ensures Reads(s, i, i + 1, [])
  {
    ReadsLexeme(s, i, []);
  }

  lemma {:induction false} ReadsSpaces(s: seq<byte>, i: nat, n: nat)
    requires i + n <= |s| && forall k :: i <= k < i + n ==> IsSpace(s[k])
    ensures Reads(s, i, i + n, [])
    decreases n
  {
    if n == 0 {
      ReadsNothing(s, i);
    } else {
      ReadsSpace(s, i);
      ReadsSpaces(s, i + 1, n - 1);
      ReadsThen(s, i, i + 1, i + n, [], []);
    }
  }

  // ---- strings ----------------------------------------------------------------------

  /** The string loop reads bytes of multi-byte characters one by one. */
  lemma {:induction false} BodyReadsHigh(s: seq<byte>, open: nat, i: nat, n: nat)
    requires open < i && i + n <= |s| && forall k :: i <= k < i + n ==> s[k] >= 128
    ensures ScanBody(s, open, i) == Prepend(Latin(s[i..i + n]), [], ScanBody(s, open, i + n))
    decreases n
  {
    if n == 0 {
      assert s[i..i] == [];
      PrependNothing(ScanBody(s, open, i));
    } else {
      BodyReadsHigh(s, open, i + 1, n - 1);
      PrependTwice([s[i] as char], [], Latin(s[i + 1..i + n]), [], ScanBody(s, open, i + n));
      assert Latin(s[i..i + n]) == [s[i] as char] + Latin(s[i + 1..i + n]);
    }
  }

  lemma PrependNothing(rest: StringBody)
    ensures Prepend("", [], rest) == rest
  {
    assert "" + rest.value == rest.value && [] + rest.errors == rest.errors;
  }

  lemma BodyReadsEscaped(s: seq<byte>, open: nat, i: nat, c: char)
    requires open < i && HasText(s, i, EscapeChar(c)) && (c == '\"' || c == '\n' || c == '\\')
    ensures ScanBody(s, open, i) == Prepend([c], [], ScanBody(s, open, Past(i, EscapeChar(c))))
  {
    AsciiAt(s, i, EscapeChar(c));
    assert s[i + 0] == BACKSLASH && s[i + 1] == EscapeChar(c)[1] as int;
  }

  lemma BodyReadsPlain(s: seq<byte>, open: nat, i: nat, c: char)
    requires open < i && HasText(s, i, [c]) && c as int < 128 && c != '\"' && c != '\n' && c != '\\'
    ensures ScanBody(s, open, i) == Prepend([c], [], ScanBody(s, open, Past(i, [c])))
  {
    AsciiAt(s, i, [c]);
    assert s[i + 0] == c as int;
  }

  lemma BodyReadsWide(s: seq<byte>, open: nat, i: nat, c: char)
    requires open < i && HasText(s, i, [c]) && c as int >= 128
    ensures ScanBody(s, open, i) == Prepend(Latin(Utf8(c)), [], ScanBody(s, open, Past(i, [c])))
  {
    hide ScanBody;
    var n := |Utf8(c)|;
    assert [c][1..] == "";
    assert Encode([c]) == Utf8(c);
    forall k | i <= k < i + n ensures s[k] >= 128 {
      assert s[k] == s[i..i + n][k - i];
    }
    BodyReadsHigh(s, open, i, n);
  }

  lemma BodyReadsChar(s: seq<byte>, open: nat, i: nat, c: char)
    requires open < i && HasText(s, i, EscapeChar(c))
    ensures ScanBody(s, open, i) == Prepend(Latin(Utf8(c)), [], ScanBody(s, open, Past(i, EscapeChar(c))))
  {
    hide ScanBody, HasText;
    if c as int >= 128 {
      BodyReadsWide(s, open, i, c);
    } else {
      assert Latin(Utf8(c)) == [c];
      if c == '\"' || c == '\n' || c == '\\' {
        BodyReadsEscaped(s, open, i, c);
      } else {
        BodyReadsPlain(s, open, i, c);
      }
    }
  }

  lemma {:induction false} BodyReadsText(s: seq<byte>, open: nat, i: nat, text: string)
    requires open < i && HasText(s, i, Escape(text))
    ensures ScanBody(s, open, i) == Prepend(Latin(Encode(text)), [], ScanBody(s, open, Past(i, Escape(text))))
    decreases |text|
  {
    if text == "" {
      assert Latin([]) == "";
      PrependNothing(ScanBody(s, open, i));
    } else {
      var head, rest := EscapeChar(text[0]), Escape(text[1..]);
      Split(s, i, head, rest);
      var j := Past(i, head);
      BodyReadsChar(s, open, i, text[0]);
      BodyReadsText(s, open, j, text[1..]);
      LatinConcat(Utf8(text[0]), Encode(text[1..]));
      PrependTwice(Latin(Utf8(text[0])), [], Latin(Encode(text[1..])), [], ScanBody(s, open, Past(j, rest)));
    }
  }

  lemma QuoteAt(s: seq<byte>, i: nat)
    requires HasText(s, i, "\"")
    ensures Past(i, "\"") == i + 1 <= |s| && s[i] == QUOTE
  {
    AsciiAt(s, i, "\"");
    assert s[i + 0] == QUOTE;
  }

  lemma LiteralParts(s: seq<byte>, i: nat, text: string)
    requires HasText(s, i, "\"" + Escape(text) + "\"")
    ensures var k := Past(i + 1, Escape(text));
            && k < |s| && s[i] == QUOTE && s[k] == QUOTE
            && HasText(s, i + 1, Escape(text))
            && Past(i, "\"" + Escape(text) + "\"") == k + 1
  {
    hide HasText, Encode;
    assert "\"" + Escape(text) + "\"" == "\"" + (Escape(text) + "\"");
    Split(s, i, "\"", Escape(text) + "\"");
    QuoteAt(s, i);
    Split(s, i + 1, Escape(text), "\"");
    QuoteAt(s, Past(i + 1, Escape(text)));
  }

  lemma BodyReadsLiteral(s: seq<byte>, i: nat, text: string)
    requires HasText(s, i, "\"" + Escape(text) + "\"")
    ensures var end := Past(i, "\"" + Escape(text) + "\"");
            i + 1 < end <= |s| && s[i] == QUOTE
                && ScanBody(s, i, i + 1) == StringBody(Latin(Encode(text)), end, [], true)
  {
    LiteralParts(s, i, text);
    hide HasText, Encode, Escape;
    var k := Past(i + 1, Escape(text));
    assert ScanBody(s, i, k) == StringBody("", k + 1, [], true);
    BodyReadsText(s, i, i + 1, text);
    assert Latin(Encode(text)) + "" == Latin(Encode(text));
  }

  lemma ScanString(s: seq<byte>, i: nat)
    requires i < |s| && s[i] == QUOTE
    ensures Scan(s, i) == StringLexeme(s, i)
  {
  }

  lemma ReadsString(s: seq<byte>, i: nat, text: string)
    requires HasText(s, i, "\"" + Escape(text) + "\"")
    ensures Reads(s, i, Past(i, "\"" + Escape(text) + "\""), [Str(Latin(Encode(text)))])
  {
    hide Scan, ScanBody, HasText;
    BodyReadsLiteral(s, i, text);
    ScanString(s, i);
    OneKind(Scan(s, i).tokens[0]);
    ReadsLexeme(s, i, [Str(Latin(Encode(text)))]);
  }

  // ---- values -------------------------------------------------------------------------

  lemma DotsAt(s: seq<byte>, i: nat)
    requires HasText(s, i, "..")
    ensures Past(i, "..") == i + 2 <= |s| && s[i] == DOT && s[i + 1] == DOT
  {
    AsciiAt(s, i, "..");
    assert s[i + 0] == DOT && s[i + 1] == DOT;
  }

  lemma SpaceAt(s: seq<byte>, i: nat)
    requires HasText(s, i, " ")
    ensures Past(i, " ") == i + 1 <= |s| && s[i] == 32
  {
    AsciiAt(s, i, " ");
    assert s[i + 0] == 32;
  }

  /** What the formatter prints right after a value: `;`, `,` or `]`. */
  predicate EndsValue(b: byte) { b == 59 || b == 44 || b == 93 }

  lemma ReadsDots(s: seq<byte>, i: nat)
    requires HasText(s, i, "..")
    ensures Past(i, "..") == i + 2 && Reads(s, i, i + 2, [Sym(DotDot)])
  {
    DotsAt(s, i);
    ReadsSymbol(s, i, DotDot, 2);
  }

  lemma ReadsScalar(s: seq<byte>, i: nat, v: Value)
    requires LexicalScalar(v) && HasText(s, i, ValueText(v))
    requires var j := Past(i, ValueText(v)); j < |s| && EndsValue(s[j])
    ensures Reads(s, i, Past(i, ValueText(v)), [ScalarKind(v)])
  {
    match v
    case Identifier(name) => ReadsWord(s, i, name);
    case Numeric(number) => ReadsNumber(s, i, number);
    case Text(text) => ReadsString(s, i, text);
  }

  lemma ReadsQuantity(s: seq<byte>, i: nat, amount: string, unit: string)
    requires IsNumber(amount) && IsWord(unit) && HasText(s, i, amount + " " + unit)
    requires var j := Past(i, amount + " " + unit); j < |s| && EndsValue(s[j])
    ensures Reads(s, i, Past(i, amount + " " + unit), [Number(amount), Ident(unit)])
  {
    hide HasText, Encode, Reads;
    assert amount + " " + unit == amount + (" " + unit);
    Split(s, i, amount, " " + unit);
    var j := Past(i, amount);
    Split(s, j, " ", unit);
    SpaceAt(s, j);
    ReadsNumber(s, i, amount);
    ReadsSpace(s, j);
    ReadsWord(s, j + 1, unit);
    ReadsThen(s, j, j + 1, Past(j + 1, unit), [], [Ident(unit)]);
    assert [] + [Ident(unit)] == [Ident(unit)];
    ReadsThen(s, i, j, Past(j + 1, unit), [Number(amount)], [Ident(unit)]);
    assert [Number(amount)] + [Ident(unit)] == [Number(amount), Ident(unit)];
  }

  /** A range whose start the dots do not change. */
  lemma ReadsPlainRange(s: seq<byte>, i: nat, start: string, end: string)
    requires (IsWord(start) || (IsNumber(start) && !EndsWithDot(start))) && IsNumber(end)
    requires HasText(s, i, start + ".." + end)
    requires var j := Past(i, start + ".." + end); j < |s| && EndsValue(s[j])
    ensures Reads(s, i, Past(i, start + ".." + end),
                  [if IsWord(start) then Ident(start) else Number(start), Sym(DotDot), Number(end)])
  {
    hide HasText, Encode, Reads;
    assert start + ".." + end == start + (".." + end);
    Split(s, i, start, ".." + end);
    var j := Past(i, start);
    Split(s, j, "..", end);
    DotsAt(s, j);
    ReadsDots(s, j);
    ReadsNumber(s, j + 2, end);
    var k := Past(j + 2, end);
    ReadsThen(s, j, j + 2, k, [Sym(DotDot)], [Number(end)]);
    if IsWord(start) {
      ReadsWord(s, i, start);
      ReadsThen(s, i, j, k, [Ident(start)], [Sym(DotDot)] + [Number(end)]);
      assert [Ident(start)] + ([Sym(DotDot)] + [Number(end)]) == [Ident(start), Sym(DotDot), Number(end)];
    } else {
      ReadsNumber(s, i, start);
      ReadsThen(s, i, j, k, [Number(start)], [Sym(DotDot)] + [Number(end)]);
      assert [Number(start)] + ([Sym(DotDot)] + [Number(end)]) == [Number(start), Sym(DotDot), Number(end)];
    }
  }

  lemma DotEnds(t: string)
    requires IsNumber(t)
    ensures EndsWithDot(t) <==> Encode(t)[|Encode(t)| - 1] == DOT
    ensures StartsWithDot(t) <==> Encode(t)[0] == DOT
  {
    EncodeAscii(t);
  }

  lemma HeadIsNumber(start: string)
    requires IsNumber(start) && EndsWithDot(start)
    ensures var head := start[..|start| - 1]; IsNumber(head) && !EndsWithDot(head)
  {
    EncodeAscii(start);
    DotEnds(start);
    DotDropped(Encode(start));
    var head := start[..|start| - 1];
    EncodeAscii(head);
    assert Encode(head) == Encode(start)[..|start| - 1];
    DotEnds(head);
  }

  lemma DottedIsNumber(end: string)
    requires IsNumber(end) && !StartsWithDot(end)
    ensures IsNumber("." + end)
  {
    EncodeAscii(end);
    DotEnds(end);
    DotAdded(Encode(end));
    EncodeAscii("." + end);
    assert Encode("." + end) == [DOT] + Encode(end);
  }

  lemma TailIsNumber(end: string)
    requires IsNumber(end) && StartsWithDot(end)
    ensures IsNumber(end[1..]) && !StartsWithDot(end[1..])
  {
    EncodeAscii(end);
    DotEnds(end);
    DotStripped(Encode(end));
    EncodeAscii(end[1..]);
    assert Encode(end[1..]) == Encode(end)[1..];
    DotEnds(end[1..]);
  }

  /** The text of a range is unchanged when its start's last dot moves to its end. */
  lemma DotMoves(start: string, end: string)
    requires EndsWithDot(start)
    ensures start + ".." + end == start[..|start| - 1] + ".." + ("." + end)
  {
    assert start == start[..|start| - 1] + ".";
  }

  /** Dots on both sides of a range: four dots in a row, hence two range symbols. */
  lemma ReadsFourDots(s: seq<byte>, i: nat, head: string, tail: string)
    requires IsNumber(head) && !EndsWithDot(head) && IsNumber(tail)
    requires HasText(s, i, head + (".." + (".." + tail)))
    requires var j := Past(i, head + (".." + (".." + tail))); j < |s| && EndsValue(s[j])
    ensures Reads(s, i, Past(i, head + (".." + (".." + tail))), [Number(head), Sym(DotDot), Sym(DotDot), Number(tail)])
  {
    hide HasText, Encode, Reads;
    Split(s, i, head, ".." + (".." + tail));
    var j := Past(i, head);
    Split(s, j, "..", ".." + tail);
    DotsAt(s, j);
    Split(s, j + 2, "..", tail);
    DotsAt(s, j + 2);
    var k := Past(j + 4, tail);
    ReadsNumber(s, i, head);
    ReadsDots(s, j);
    ReadsDots(s, j + 2);
    ReadsNumber(s, j + 4, tail);
    ReadsThen(s, j + 2, j + 4, k, [Sym(DotDot)], [Number(tail)]);
    ReadsThen(s, j, j + 2, k, [Sym(DotDot)], [Sym(DotDot)] + [Number(tail)]);
    ReadsThen(s, i, j, k, [Number(head)], [Sym(DotDot)] + ([Sym(DotDot)] + [Number(tail)]));
    assert [Number(head)] + ([Sym(DotDot)] + ([Sym(DotDot)] + [Number(tail)]))
        == [Number(head), Sym(DotDot), Sym(DotDot), Number(tail)];
  }

  lemma WordStarts(t: string)
    ensures IsWord(t) ==> IsWordText(t)
    ensures IsNumber(t) ==> !IsWordText(t) && !IsWord(t) && t != ""
  {
    if IsAscii(t) {
      EncodeAscii(t);
    }
  }

  lemma ReadsRange(s: seq<byte>, i: nat, start: string, end: string)
    requires LexicalValue(Range(start, end)) && HasText(s, i, start + ".." + end)
    requires var j := Past(i, start + ".." + end); j < |s| && EndsValue(s[j])
    ensures end != "" && Reads(s, i, Past(i, start + ".." + end), RangeKinds(start, end))
  {
    hide HasText, Encode, Reads, IsWord, IsNumber;
    WordStarts(start);
    WordStarts(end);
    if IsWord(start) || !EndsWithDot(start) {
      ReadsPlainRange(s, i, start, end);
    } else {
      var head := start[..|start| - 1];
      HeadIsNumber(start);
      WordStarts(head);
      DotMoves(start, end);
      if StartsWithDot(end) {
        TailIsNumber(end);
        assert end == "." + end[1..];
        assert start + ".." + end == head + (".." + (".." + end[1..]));
        ReadsFourDots(s, i, head, end[1..]);
      } else {
        DottedIsNumber(end);
        ReadsPlainRange(s, i, head, "." + end);
      }
    }
  }

  lemma ReadsSeparator(s: seq<byte>, i: nat)
    requires HasText(s, i, ", ")
    ensures Past(i, ", ") == i + 2 <= |s| && s[i] == 44 && Reads(s, i, i + 2, [Sym(Comma)])
  {
    AsciiAt(s, i, ", ");
    assert s[i + 0] == 44 && s[i + 1] == 32;
    ReadsSymbol(s, i, Comma, 1);
    ReadsSpace(s, i + 1);
    ReadsThen(s, i, i + 1, i + 2, [Sym(Comma)], []);
    assert [Sym(Comma)] + [] == [Sym(Comma)];
  }

  lemma {:induction false} ReadsItems(s: seq<byte>, i: nat, items: seq<Value>)
    requires LexicalValue(List(items)) && HasText(s, i, ItemsText(items))
    requires var j := Past(i, ItemsText(items)); j < |s| && s[j] == 93
    ensures Reads(s, i, Past(i, ItemsText(items)), ItemsKinds(items))
    decreases |items|
  {
    hide HasText, Encode, Reads, LexicalScalar, ValueText, ScalarKind;
    if items == [] {
      EmptyText(s, i);
      ReadsNothing(s, i);
    } else if |items| == 1 {
      ReadsScalar(s, i, items[0]);
    } else {
      var head, rest := ValueText(items[0]), ItemsText(items[1..]);
      assert head + ", " + rest == head + (", " + rest);
      Split(s, i, head, ", " + rest);
      var j := Past(i, head);
      Split(s, j, ", ", rest);
      ReadsSeparator(s, j);
      var k := Past(j + 2, rest);
      ReadsScalar(s, i, items[0]);
      ReadsItems(s, j + 2, items[1..]);
      ReadsThen(s, j, j + 2, k, [Sym(Comma)], ItemsKinds(items[1..]));
      ReadsThen(s, i, j, k, [ScalarKind(items[0])], [Sym(Comma)] + ItemsKinds(items[1..]));
      assert [ScalarKind(items[0])] + ([Sym(Comma)] + ItemsKinds(items[1..]))
          == [ScalarKind(items[0]), Sym(Comma)] + ItemsKinds(items[1..]);
    }
  }

  lemma EmptyText(s: seq<byte>, i: nat)
    ensures Past(i, "") == i
    ensures HasText(s, i, "") ==> i <= |s|
  {
  }

  lemma ReadsBracket(s: seq<byte>, i: nat, w: string, symbol: Symbol)
    requires HasText(s, i, w) && |w| == 1 && w[0] as int < 128
    requires SymbolOf(w[0] as int, None) == Some((symbol, 1)) && w[0] != '.'
    ensures Past(i, w) == i + 1 <= |s| && s[i] == w[0] as int && Reads(s, i, i + 1, [Sym(symbol)])
  {
    AsciiAt(s, i, w);
    assert s[i + 0] == w[0] as int;
    ReadsSymbol(s, i, symbol, 1);
  }

  lemma ReadsList(s: seq<byte>, i: nat, items: seq<Value>)
    requires LexicalValue(List(items)) && HasText(s, i, "[" + ItemsText(items) + "]")
    ensures Reads(s, i, Past(i, "[" + ItemsText(items) + "]"), [Sym(LBracket)] + ItemsKinds(items) + [Sym(RBracket)])
  {
    hide HasText, Encode, Reads, ItemsText, ItemsKinds, LexicalValue;
    var text := ItemsText(items);
    assert "[" + text + "]" == "[" + (text + "]");
    Split(s, i, "[", text + "]");
    ReadsBracket(s, i, "[", LBracket);
    Split(s, i + 1, text, "]");
    var j := Past(i + 1, text);
    ReadsBracket(s, j, "]", RBracket);
    ReadsItems(s, i + 1, items);
    ReadsThen(s, i, i + 1, j, [Sym(LBracket)], ItemsKinds(items));
    ReadsThen(s, i, j, j + 1, [Sym(LBracket)] + ItemsKinds(items), [Sym(RBracket)]);
  }

  lemma ReadsValue(s: seq<byte>, i: nat, v: Value)
    requires LexicalValue(v) && HasText(s, i, ValueText(v))
    requires var j := Past(i, ValueText(v)); j < |s| && EndsValue(s[j])
    ensures Reads(s, i, Past(i, ValueText(v)), ValueKinds(v))
  {
    hide HasText, Encode, Reads;
    match v
    case Quantity(amount, unit) => ReadsQuantity(s, i, amount, unit);
    case Range(start, end) => ReadsRange(s, i, start, end);
    case List(items) => ReadsList(s, i, items);
    case _ => ReadsScalar(s, i, v);
  }

  // ---- fields, blocks, programs -------------------------------------------------------

  lemma SpacesAt(s: seq<byte>, i: nat, w: string)
    requires HasText(s, i, w) && forall k :: 0 <= k < |w| ==> w[k] == ' ' || w[k] == '\n'
    ensures Past(i, w) == i + |w| <= |s| && Reads(s, i, i + |w|, [])
  {
    AsciiAt(s, i, w);
    forall k | i <= k < i + |w| ensures IsSpace(s[k]) {
      assert s[i + (k - i)] == w[k - i] as int;
    }
    hide HasText;
    ReadsSpaces(s, i, |w|);
  }

  /** A word followed by a space. */
  lemma ReadsWordSpace(s: seq<byte>, i: nat, w: string)
    requires IsWord(w) && HasText(s, i, w + " ")
    ensures Reads(s, i, Past(i, w + " "), [Ident(w)])
  {
    hide HasText, Encode, Reads, IsWord;
    Split(s, i, w, " ");
    var j := Past(i, w);
    SpaceAt(s, j);
    ReadsWord(s, i, w);
    ReadsSpace(s, j);
    ReadsThen(s, i, j, j + 1, [Ident(w)], []);
    assert [Ident(w)] + [] == [Ident(w)];
  }

  lemma ReadsFieldEnd(s: seq<byte>, i: nat)
    requires HasText(s, i, ";\n")
    ensures Past(i, ";\n") == i + 2 <= |s| && s[i] == 59 && Reads(s, i, i + 2, [Sym(Semicolon)])
  {
    AsciiAt(s, i, ";\n");
    assert s[i + 0] == 59 && s[i + 1] == 10;
    ReadsSymbol(s, i, Semicolon, 1);
    ReadsSpace(s, i + 1);
    ReadsThen(s, i, i + 1, i + 2, [Sym(Semicolon)], []);
    assert [Sym(Semicolon)] + [] == [Sym(Semicolon)];
  }

  lemma ReadsField(s: seq<byte>, i: nat, f: Field)
    requires IsWord(f.key) && LexicalValue(f.value) && HasText(s, i, FieldText(f))
    ensures Reads(s, i, Past(i, FieldText(f)), FieldKinds(f))
  {
    hide HasText, Encode, Reads, IsWord, LexicalValue, ValueText, ValueKinds;
    var v := ValueText(f.value);
    assert FieldText(f) == "    " + ((f.key + " ") + (v + ";\n"));
    Split(s, i, "    ", (f.key + " ") + (v + ";\n"));
    SpacesAt(s, i, "    ");
    Split(s, i + 4, f.key + " ", v + ";\n");
    var j := Past(i + 4, f.key + " ");
    Split(s, j, v, ";\n");
    var k := Past(j, v);
    ReadsFieldEnd(s, k);
    ReadsWordSpace(s, i + 4, f.key);
    ReadsValue(s, j, f.value);
    ReadsThen(s, i, i + 4, j, [], [Ident(f.key)]);
    assert [] + [Ident(f.key)] == [Ident(f.key)];
    ReadsThen(s, i, j, k, [Ident(f.key)], ValueKinds(f.value));
    ReadsThen(s, i, k, k + 2, [Ident(f.key)] + ValueKinds(f.value), [Sym(Semicolon)]);
  }

  lemma {:induction false} ReadsFields(s: seq<byte>, i: nat, fields: seq<Field>)
    requires LexicalFields(fields) && HasText(s, i, FieldsText(fields))
    ensures Reads(s, i, Past(i, FieldsText(fields)), FieldsKinds(fields))
    decreases |fields|
  {
    hide HasText, Encode, Reads, IsWord, LexicalValue, FieldText, FieldKinds;
    if fields == [] {
      EmptyText(s, i);
      ReadsNothing(s, i);
    } else {
      Split(s, i, FieldText(fields[0]), FieldsText(fields[1..]));
      var j := Past(i, FieldText(fields[0]));
      ReadsField(s, i, fields[0]);
      ReadsFields(s, j, fields[1..]);
      ReadsThen(s, i, j, Past(j, FieldsText(fields[1..])), FieldKinds(fields[0]), FieldsKinds(fields[1..]));
    }
  }

  lemma ReadsBlockOpen(s: seq<byte>, i: nat)
    requires HasText(s, i, "{\n")
    ensures Past(i, "{\n") == i + 2 <= |s| && Reads(s, i, i + 2, [Sym(LBrace)])
  {
    AsciiAt(s, i, "{\n");
    assert s[i + 0] == 123 && s[i + 1] == 10;
    ReadsSymbol(s, i, LBrace, 1);
    ReadsSpace(s, i + 1);
    ReadsThen(s, i, i + 1, i + 2, [Sym(LBrace)], []);
    assert [Sym(LBrace)] + [] == [Sym(LBrace)];
  }

  lemma BlockEndAt(s: seq<byte>, i: nat)
    requires HasText(s, i, "}\n\n")
    ensures Past(i, "}\n\n") == i + 3 <= |s| && s[i] == 125
    ensures forall k :: i + 1 <= k < i + 1 + 2 ==> IsSpace(s[k])
  {
    AsciiAt(s, i, "}\n\n");
    assert s[i + 0] == 125 && s[i + 1] == 10 && s[i + 2] == 10;
  }

  lemma ReadsBlockEnd(s: seq<byte>, i: nat)
    requires HasText(s, i, "}\n\n")
    ensures Past(i, "}\n\n") == i + 3 <= |s| && Reads(s, i, i + 3, [Sym(RBrace)])
  {
    hide HasText, Encode, Reads, Past, IsSpace;
    BlockEndAt(s, i);
    ReadsBrace(s, i);
    ReadsSpaces(s, i + 1, 2);
    ReadsThen(s, i, i + 1, i + 3, [Sym(RBrace)], []);
    assert [Sym(RBrace)] + [] == [Sym(RBrace)];
  }

  lemma ReadsBrace(s: seq<byte>, i: nat)
    requires i < |s| && s[i] == 125
    ensures Reads(s, i, i + 1, [Sym(RBrace)])
  {
    hide Reads;
    ReadsSymbol(s, i, RBrace, 1);
  }

  /** `kind name {` */
  lemma ReadsHeader(s: seq<byte>, i: nat, kind: string, name: string)
    requires IsWord(kind) && IsWord(name) && HasText(s, i, kind + " " + (name + " " + "{\n"))
    ensures Reads(s, i, Past(i, kind + " " + (name + " " + "{\n")), [Ident(kind), Ident(name), Sym(LBrace)])
  {
    hide HasText, Encode, Reads, IsWord;
    Split(s, i, kind + " ", name + " " + "{\n");
    var j := Past(i, kind + " ");
    Split(s, j, name + " ", "{\n");
    var k := Past(j, name + " ");
    ReadsBlockOpen(s, k);
    ReadsWordSpace(s, i, kind);
    ReadsWordSpace(s, j, name);
    ReadsThen(s, i, j, k, [Ident(kind)], [Ident(name)]);
    ReadsThen(s, i, k, k + 2, [Ident(kind)] + [Ident(name)], [Sym(LBrace)]);
    assert [Ident(kind)] + [Ident(name)] + [Sym(LBrace)] == [Ident(kind), Ident(name), Sym(LBrace)];
  }

  lemma ReadsBlock(s: seq<byte>, i: nat, b: Block)
    requires LexicalBlock(b) && HasText(s, i, BlockText(b) + "\n")
    ensures Reads(s, i, Past(i, BlockText(b) + "\n"), BlockKinds(b))
  {
    hide HasText, Encode, Reads, IsWord, LexicalFields, FieldsText, FieldsKinds;
    var fields := FieldsText(b.fields);
    var header := b.kind + " " + (b.name + " " + "{\n");
    assert BlockText(b) + "\n" == header + (fields + "}\n\n");
    Split(s, i, header, fields + "}\n\n");
    var j := Past(i, header);
    Split(s, j, fields, "}\n\n");
    var k := Past(j, fields);
    ReadsHeader(s, i, b.kind, b.name);
    ReadsFields(s, j, b.fields);
    ReadsBlockEnd(s, k);
    ReadsThen(s, i, j, k, [Ident(b.kind), Ident(b.name), Sym(LBrace)], FieldsKinds(b.fields));
    ReadsThen(s, i, k, k + 3, [Ident(b.kind), Ident(b.name), Sym(LBrace)] + FieldsKinds(b.fields), [Sym(RBrace)]);
  }

  lemma {:induction false} ReadsBlocks(s: seq<byte>, i: nat, blocks: seq<Block>)
    requires LexicalBlocks(blocks) && HasText(s, i, BlocksText(blocks))
    ensures Reads(s, i, Past(i, BlocksText(blocks)), BlocksKinds(blocks))
    decreases |blocks|
  {
    hide HasText, Encode, Reads, LexicalBlock, BlockText, BlockKinds;
    if blocks == [] {
      EmptyText(s, i);
      ReadsNothing(s, i);
    } else {
      var first := BlockText(blocks[0]) + "\n";
      Split(s, i, first, BlocksText(blocks[1..]));
      var j := Past(i, first);
      ReadsBlock(s, i, blocks[0]);
      ReadsBlocks(s, j, blocks[1..]);
      ReadsThen(s, i, j, Past(j, BlocksText(blocks[1..])), BlockKinds(blocks[0]), BlocksKinds(blocks[1..]));
    }
  }

  /** Every printed program lexes without errors, to exactly the kinds of its tree. */
  lemma FormattedLexes(blocks: seq<Block>)
    requires LexicalBlocks(blocks)
    ensures var lexed := LexFrom(Encode(BlocksText(blocks)), 0);
            lexed.errors == [] && KindsOf(lexed.tokens) == BlocksKinds(blocks) + [Eof]
  {
    var s := Encode(BlocksText(blocks));
    assert s[0..|s|] == s;
    ReadsBlocks(s, 0, blocks);
    OneKind(Token(Eof, SpanOf(s, |s|, |s|)));
  }
}
