/**
 Formatting twice: the text of a tree read back from its own text is that text
 exactly when every string is ASCII; any other string grows each time.
 */
module Reprint {
  import opened Bytes
  import opened Ast
  import opened Formatter
  import opened Relex
  import opened RoundTrip

  /** The second text is the first, or longer. */
  ghost predicate Again(second: string, first: string, same: bool) {
    if same then second == first else |second| > |first|
  }

  lemma AgainJoins(second: string, first: string, same: bool, second': string, first': string, same': bool)
    requires Again(second, first, same) && Again(second', first', same')
    ensures Again(second + second', first + first', same && same')
  {
  }

  lemma {:induction false} EscapeIsNoShorter(text: string)
    ensures |Escape(text)| >= |text|
  {
    if text != "" {
      EscapeIsNoShorter(text[1..]);
    }
  }

  /** A string read back byte by byte prints the same exactly if it is ASCII. */
  lemma {:induction false} TextAgain(text: string)
    ensures Again(Escape(Latin(Encode(text))), Escape(text), IsAscii(text))
  {
    if IsAscii(text) {
      EncodeAscii(text);
    } else {
      hide EscapeChar, Utf8;
      var c, rest := text[0], text[1..];
      assert text == [c] + rest;
      assert Encode(text) == Utf8(c) + Encode(rest);
      LatinConcat(Utf8(c), Encode(rest));
      EscapesFollow(Latin(Utf8(c)), Latin(Encode(rest)));
      EscapesFollow([c], rest);
      CharAgain(c);
      TextAgain(rest);
      assert IsAscii(text) <==> IsAscii([c]) && IsAscii(rest) by {
        assert forall i :: 0 < i < |text| ==> text[i] == rest[i - 1];
        assert forall i :: 0 <= i < |rest| ==> rest[i] == text[i + 1];
      }
      AgainJoins(Escape(Latin(Utf8(c))), Escape([c]), IsAscii([c]), Escape(Latin(Encode(rest))), Escape(rest),
                 IsAscii(rest));
    }
  }

  lemma CharAgain(c: char)
    ensures Again(Escape(Latin(Utf8(c))), Escape([c]), IsAscii([c]))
  {
    assert Escape([c]) == EscapeChar(c) + Escape([c][1..]) == EscapeChar(c);
    if c as int < 128 {
      assert Latin(Utf8(c)) == [c];
    } else {
      EscapeIsNoShorter(Latin(Utf8(c)));
      assert [c][0] == c && !IsAscii([c]);
    }
  }

  /** ASCII strings, in lists too. */
  ghost predicate AsciiValue(v: Value) {
    match v
    case List(items) => AsciiItems(items)
    case _ => PlainScalar(v)
  }

  ghost predicate AsciiItems(items: seq<Value>) {
    forall i :: 0 <= i < |items| ==> PlainScalar(items[i])
  }

  ghost predicate AsciiFields(fields: seq<Field>) {
    forall i :: 0 <= i < |fields| ==> AsciiValue(fields[i].value)
  }

  ghost predicate AsciiBlocks(blocks: seq<Block>) {
    forall i :: 0 <= i < |blocks| ==> AsciiFields(blocks[i].fields)
  }

  lemma ScalarAgain(v: Value)
    ensures Again(ValueText(RereadScalar(v)), ValueText(v), PlainScalar(v))
  {
    if v.Text? {
      hide Escape, Encode;
      TextAgain(v.text);
      var second := Escape(Latin(Encode(v.text)));
      AgainJoins("\"", "\"", true, second, Escape(v.text), IsAscii(v.text));
      AgainJoins("\"" + second, "\"" + Escape(v.text), IsAscii(v.text), "\"", "\"", true);
    }
  }

  lemma {:induction false} ItemsAgain(items: seq<Value>)
    ensures Again(ItemsText(RereadItems(items)), ItemsText(items), AsciiItems(items))
    ensures RereadItems(items) == [] <==> items == []
  {
    if items != [] {
      hide ValueText, RereadScalar, PlainScalar;
      var first, rest := items[0], items[1..];
      ScalarAgain(first);
      ItemsAgain(rest);
      assert AsciiItems(items) <==> PlainScalar(first) && AsciiItems(rest) by {
        assert forall i :: 0 < i < |items| ==> items[i] == rest[i - 1];
        assert forall i :: 0 <= i < |rest| ==> rest[i] == items[i + 1];
      }
      assert RereadItems(items)[0] == RereadScalar(first) && RereadItems(items)[1..] == RereadItems(rest);
      if rest != [] {
        AgainJoins(ValueText(RereadScalar(first)), ValueText(first), PlainScalar(first), ", ", ", ", true);
        AgainJoins(ValueText(RereadScalar(first)) + ", ", ValueText(first) + ", ", PlainScalar(first),
                   ItemsText(RereadItems(rest)), ItemsText(rest), AsciiItems(rest));
      }
    }
  }

  /** A range keeps its text wherever its dot moves; a list is reread item by item. */
  lemma ValueAgain(v: Value)
    requires !BrokenRange(v)
    ensures Again(ValueText(RereadValue(v)), ValueText(v), AsciiValue(v))
  {
    hide ItemsText, RereadItems, AsciiItems;
    match v
    case Range(start, end) =>
      if !IsWordText(start) && EndsWithDot(start) {
        DotMoves(start, end);
      }
    case List(items) =>
      ItemsAgain(items);
      var second := ItemsText(RereadItems(items));
      AgainJoins("[", "[", true, second, ItemsText(items), AsciiItems(items));
      AgainJoins("[" + second, "[" + ItemsText(items), AsciiItems(items), "]", "]", true);
    case _ => ScalarAgain(v);
  }

  lemma FieldAgain(a: Field, f: Field)
    requires a.key == f.key && a.value == RereadValue(f.value) && !BrokenRange(f.value)
    ensures Again(FieldText(a), FieldText(f), AsciiValue(f.value))
  {
    hide ValueText, RereadValue, BrokenRange, AsciiValue;
    ValueAgain(f.value);
    var head, same := "    " + f.key + " ", AsciiValue(f.value);
    AgainJoins(head, head, true, ValueText(a.value), ValueText(f.value), same);
    AgainJoins(head + ValueText(a.value), head + ValueText(f.value), same, ";\n", ";\n", true);
  }

  lemma {:induction false} FieldsAgain(a: seq<Field>, fields: seq<Field>)
    requires BareFields(a) == RereadFields(fields) && !BrokenFields(fields)
    ensures Again(FieldsText(a), FieldsText(fields), AsciiFields(fields))
    decreases |fields|
  {
    hide FieldText, RereadValue, BrokenRange, AsciiValue;
    assert a == [] <==> fields == [];
    if fields != [] {
      var rest := fields[1..];
      assert BareFields(a)[0] == RereadFields(fields)[0] && BareFields(a)[1..] == RereadFields(fields)[1..];
      assert fields[0] in fields && forall f :: f in rest ==> f in fields;
      FieldAgain(a[0], fields[0]);
      FieldsAgain(a[1..], rest);
      assert AsciiFields(fields) <==> AsciiValue(fields[0].value) && AsciiFields(rest) by {
        assert forall i :: 0 < i < |fields| ==> fields[i] == rest[i - 1];
        assert forall i :: 0 <= i < |rest| ==> rest[i] == fields[i + 1];
      }
      AgainJoins(FieldText(a[0]), FieldText(fields[0]), AsciiValue(fields[0].value),
                 FieldsText(a[1..]), FieldsText(rest), AsciiFields(rest));
    }
  }

  lemma BlockAgain(a: Block, b: Block)
    requires a.kind == b.kind && a.name == b.name && BareFields(a.fields) == RereadFields(b.fields)
    requires !BrokenFields(b.fields)
    ensures Again(BlockText(a) + "\n", BlockText(b) + "\n", AsciiFields(b.fields))
  {
    hide BareFields, RereadFields, BrokenFields, FieldsText, AsciiFields;
    FieldsAgain(a.fields, b.fields);
    var head, same := b.kind + " " + b.name + " {\n", AsciiFields(b.fields);
    AgainJoins(head, head, true, FieldsText(a.fields), FieldsText(b.fields), same);
    AgainJoins(head + FieldsText(a.fields), head + FieldsText(b.fields), same, "}\n", "}\n", true);
    AgainJoins(BlockText(a), BlockText(b), same, "\n", "\n", true);
  }

  lemma {:induction false} BlocksAgain(a: seq<Block>, blocks: seq<Block>)
    requires BareBlocks(a) == RereadBlocks(blocks) && !BrokenBlocks(blocks)
    ensures Again(BlocksText(a), BlocksText(blocks), AsciiBlocks(blocks))
    decreases |blocks|
  {
    hide BlockText, BareFields, RereadFields, BrokenFields, AsciiFields;
    assert a == [] <==> blocks == [];
    if blocks != [] {
      var rest := blocks[1..];
      assert BareBlocks(a)[0] == RereadBlocks(blocks)[0] && BareBlocks(a)[1..] == RereadBlocks(blocks)[1..];
      assert blocks[0] in blocks && forall b :: b in rest ==> b in blocks;
      BlockAgain(a[0], blocks[0]);
      BlocksAgain(a[1..], rest);
      assert AsciiBlocks(blocks) <==> AsciiFields(blocks[0].fields) && AsciiBlocks(rest) by {
        assert forall i :: 0 < i < |blocks| ==> blocks[i] == rest[i - 1];
        assert forall i :: 0 <= i < |rest| ==> rest[i] == blocks[i + 1];
      }
      AgainJoins(BlockText(a[0]) + "\n", BlockText(blocks[0]) + "\n", AsciiFields(blocks[0].fields),
                 BlocksText(a[1..]), BlocksText(rest), AsciiBlocks(rest));
    }
  }

  /** Formatting is stable exactly on trees of ASCII strings, moved range dots or not. */
  lemma ReprintsIff(blocks: seq<Block>)
    requires LexicalBlocks(blocks) && !BrokenBlocks(blocks)
    ensures var read := Read(Encode(BlocksText(blocks)));
            && read.Some?
            && (BlocksText(read.value) == BlocksText(blocks) <==> AsciiBlocks(blocks))
            && (!AsciiBlocks(blocks) ==> |BlocksText(read.value)| > |BlocksText(blocks)|)
  {
    hide LexicalBlocks, BrokenBlocks, BlocksText, AsciiBlocks, Read, BareBlocks, RereadBlocks;
    FormattedReads(blocks);
    BlocksAgain(Read(Encode(BlocksText(blocks))).value, blocks);
  }
}
