/** The stable formatter: loops that append to an output string, and the text they build. */
module Formatter {
  import opened Ast
  import Lexer

  function EscapeChar(c: char): string {
    if c == '\"' then "\\\"" else if c == '\n' then "\\n" else if c == '\\' then "\\\\" else [c]
  }

  function Escape(text: string): string {
    if text == "" then "" else EscapeChar(text[0]) + Escape(text[1..])
  }

  function ValueText(value: Value): string
    decreases value, 0
  {
    match value
    case Identifier(name) => name
    case Numeric(number) => number
    case Text(text) => "\"" + Escape(text) + "\""
    case Quantity(amount, unit) => amount + " " + unit
    case Range(start, end) => start + ".." + end
    case List(items) => "[" + ItemsText(items) + "]"
  }

  function ItemsText(items: seq<Value>): string
    decreases items, 1
  {
    if items == [] then ""
    else if |items| == 1 then ValueText(items[0])
    else ValueText(items[0]) + ", " + ItemsText(items[1..])
  }

  function FieldText(field: Field): string {
    "    " + field.key + " " + ValueText(field.value) + ";\n"
  }

  function FieldsText(fields: seq<Field>): string {
    if fields == [] then "" else FieldText(fields[0]) + FieldsText(fields[1..])
  }

  function BlockText(block: Block): string {
    block.kind + " " + block.name + " {\n" + FieldsText(block.fields) + "}\n"
  }

  function BlocksText(blocks: seq<Block>): string {
    if blocks == [] then "" else BlockText(blocks[0]) + "\n" + BlocksText(blocks[1..])
  }

  // ---- the appending loops ------------------------------------------------------

  method FormatProgram(program: Program) returns (output: string)
    ensures output == BlocksText(program.declarations)
  {
    hide BlockText, BlocksText;
    output := "";
    var blocks := program.declarations;
    assert blocks[0..] == blocks;
    for i := 0 to |blocks|
      invariant output + BlocksText(blocks[i..]) == BlocksText(blocks)
    {
      BlocksStep(blocks, i, output);
      output := FormatBlock(blocks[i], output);
      output := output + "\n";
    }
    assert blocks[|blocks|..] == [];
    NoBlocks(output);
  }

  lemma NoBlocks(before: string)
    ensures before + BlocksText([]) == before
  {
  }

  lemma BlocksStep(blocks: seq<Block>, i: nat, before: string)
    requires i < |blocks|
    ensures before + BlocksText(blocks[i..])
         == before + BlockText(blocks[i]) + "\n" + BlocksText(blocks[i + 1..])
  {
    hide BlockText;
    assert blocks[i..][1..] == blocks[i + 1..];
  }

  method FormatBlock(block: Block, output: string) returns (output': string)
    ensures output' == output + BlockText(block)
  {
    hide BlockText, FieldsText, ValueText;
    output' := output + (block.kind + " " + block.name + " {\n");
    var fields := block.fields;
    ghost var head := output';
    assert fields[0..] == fields;
    for i := 0 to |fields|
      invariant output' + FieldsText(fields[i..]) == head + FieldsText(fields)
    {
      FieldsStep(fields, i, output');
      output' := output' + "    ";
      output' := output' + fields[i].key;
      output' := output' + " ";
      output' := FormatValue(fields[i].value, output');
      output' := output' + ";\n";
    }
    assert fields[|fields|..] == [];
    NoFields(output');
    BlockParts(block, output);
    output' := output' + "}\n";
  }

  lemma NoFields(before: string)
    ensures before + FieldsText([]) == before
  {
  }

  lemma FieldsStep(fields: seq<Field>, i: nat, before: string)
    requires i < |fields|
    ensures before + FieldsText(fields[i..])
         == before + "    " + fields[i].key + " " + ValueText(fields[i].value) + ";\n" + FieldsText(fields[i + 1..])
  {
    hide ValueText;
    assert fields[i..][1..] == fields[i + 1..];
  }

  lemma BlockParts(block: Block, before: string)
    ensures before + BlockText(block)
         == before + (block.kind + " " + block.name + " {\n") + FieldsText(block.fields) + "}\n"
  {
    hide FieldsText;
  }

  method FormatString(text: string, output: string) returns (output': string)
    ensures output' == output + Escape(text)
  {
    output' := output;
    for i := 0 to |text|
      invariant output' + Escape(text[i..]) == output + Escape(text)
    {
      ghost var before := output';
      output' := output' + EscapeChar(text[i]);
      assert text[i..][1..] == text[i + 1..];
      assert output' + Escape(text[i + 1..]) == before + (EscapeChar(text[i]) + Escape(text[i + 1..]));
    }
    assert output' + "" == output';
  }

  method FormatValue(value: Value, output: string) returns (output': string)
    ensures output' == output + ValueText(value)
    decreases value
  {
    hide ValueText, RestText, ItemsText, Escape;
    ValueParts(value, output);
    match value
    case Identifier(name) => output' := output + name;
    case Numeric(number) => output' := output + number;
    case Text(text) =>
      output' := output + "\"";
      output' := FormatString(text, output');
      output' := output' + "\"";
    case Quantity(amount, unit) => output' := output + (amount + " " + unit);
    case Range(start, end) => output' := output + (start + ".." + end);
    case List(items) =>
      output' := output + "[";
      ghost var head := output';
      AllItemsRest(items);
      for i := 0 to |items|
        invariant output' + RestText(items, i) == head + ItemsText(items)
      {
        RestStep(items, i, output');
        if i != 0 {
          output' := output' + ", ";
        }
        output' := FormatValue(items[i], output');
      }
      NoneRest(items, output');
      output' := output' + "]";
  }

  lemma ValueParts(value: Value, before: string)
    ensures before + ValueText(value) ==
            match value
            case Identifier(name) => before + name
            case Numeric(number) => before + number
            case Text(text) => before + "\"" + Escape(text) + "\""
            case Quantity(amount, unit) => before + (amount + " " + unit)
            case Range(start, end) => before + (start + ".." + end)
            case List(items) => before + "[" + ItemsText(items) + "]"
  {
    hide Escape, ItemsText;
    match value
    case Text(text) => Associates3(before, "\"", Escape(text), "\"");
    case List(items) => Associates3(before, "[", ItemsText(items), "]");
    case _ =>
  }

  lemma Associates3(a: string, b: string, c: string, d: string)
    ensures a + b + c + d == a + (b + c + d)
  {
  }

  /** What the list loop still has to print before element i, separators included. */
  ghost function RestText(items: seq<Value>, i: nat): string
    requires i <= |items|
  {
    if i == |items| then "" else (if i != 0 then ", " else "") + ItemsText(items[i..])
  }

  lemma AllItemsRest(items: seq<Value>)
    ensures RestText(items, 0) == ItemsText(items)
  {
    assert items[0..] == items;
  }

  lemma NoneRest(items: seq<Value>, before: string)
    ensures before + RestText(items, |items|) == before
  {
  }

  lemma RestStep(items: seq<Value>, i: nat, before: string)
    requires i < |items|
    ensures before + RestText(items, i)
         == (if i != 0 then before + ", " else before) + ValueText(items[i]) + RestText(items, i + 1)
  {
    hide ValueText;
    var rest := items[i..];
    assert rest[1..] == items[i + 1..];
    var item, more := ValueText(items[i]), RestText(items, i + 1);
    assert ItemsText(rest) == item + more;
    if i != 0 {
      Associates(before, ", ", item + more);
    }
    Associates(if i != 0 then before + ", " else before, item, more);
  }

  lemma Associates(a: string, b: string, c: string)
    ensures a + b + c == a + (b + c)
  {
  }

  // ---- the layout -------------------------------------------------------------------------

  /** Blocks are printed one after another. */
  lemma {:induction false} BlocksFollow(a: seq<Block>, b: seq<Block>)
    ensures BlocksText(a + b) == BlocksText(a) + BlocksText(b)
  {
    hide BlockText;
    if a == [] {
      assert a + b == b;
    } else {
      assert (a + b)[1..] == a[1..] + b;
      BlocksFollow(a[1..], b);
      Associates(BlockText(a[0]) + "\n", BlocksText(a[1..]), BlocksText(b));
    }
  }

  /** So are fields, whatever block they stand in. */
  lemma {:induction false} FieldsFollow(a: seq<Field>, b: seq<Field>)
    ensures FieldsText(a + b) == FieldsText(a) + FieldsText(b)
  {
    hide FieldText;
    if a == [] {
      assert a + b == b;
    } else {
      assert (a + b)[1..] == a[1..] + b;
      FieldsFollow(a[1..], b);
      Associates(FieldText(a[0]), FieldsText(a[1..]), FieldsText(b));
    }
  }

  /** List items are separated by a comma and a space. */
  lemma {:induction false} ItemsFollow(a: seq<Value>, b: seq<Value>)
    requires a != [] && b != []
    ensures ItemsText(a + b) == ItemsText(a) + ", " + ItemsText(b)
  {
    hide ValueText;
    assert (a + b)[1..] == a[1..] + b;
    if |a| > 1 {
      ItemsFollow(a[1..], b);
      var first := ValueText(a[0]) + ", ";
      Associates(first, ItemsText(a[1..]), ", ");
      Associates(first, ItemsText(a[1..]) + ", ", ItemsText(b));
    }
  }

  /** The escapes of two texts follow one another. */
  lemma {:induction false} EscapesFollow(a: string, b: string)
    ensures Escape(a + b) == Escape(a) + Escape(b)
  {
    hide EscapeChar;
    if a == "" {
      assert a + b == b;
    } else {
      assert (a + b)[1..] == a[1..] + b;
      EscapesFollow(a[1..], b);
      Associates(EscapeChar(a[0]), Escape(a[1..]), Escape(b));
    }
  }

  /** One block around any fields: a header line, the fields, a closing line and a blank one. */
  lemma OneBlock(kind: string, name: string, fields: seq<Field>, span: Lexer.Span)
    ensures BlocksText([Block(kind, name, fields, span)])
         == kind + " " + name + " {\n" + FieldsText(fields) + "}\n\n"
  {
    hide FieldsText;
    var block := Block(kind, name, fields, span);
    assert [block][1..] == [];
    var head := kind + " " + name + " {\n" + FieldsText(fields);
    assert "}\n" + "\n" == "}\n\n";
    Associates(head, "}\n", "\n");
  }

  /** One field on its own line, four spaces in. */
  lemma OneField(key: string, value: Value, span: Lexer.Span)
    ensures FieldsText([Field(key, value, span)]) == "    " + key + " " + ValueText(value) + ";\n"
  {
    hide ValueText;
    var field := Field(key, value, span);
    assert [field][1..] == [];
  }

  /** Each kind of value; the three escaped characters and every other one. */
  lemma EachValue(a: string, b: string, v: Value, c: char)
    ensures ValueText(Identifier(a)) == ValueText(Numeric(a)) == a
    ensures ValueText(Quantity(a, b)) == a + " " + b && ValueText(Range(a, b)) == a + ".." + b
    ensures ValueText(List([])) == "[]" && ValueText(List([v])) == "[" + ValueText(v) + "]"
    ensures ValueText(Text("")) == "\"\"" && ValueText(Text([c])) == "\"" + EscapeChar(c) + "\""
    ensures EscapeChar('\"') == "\\\"" && EscapeChar('\n') == "\\n" && EscapeChar('\\') == "\\\\"
    ensures c !in "\"\n\\" ==> EscapeChar(c) == [c]
  {
    hide EscapeChar;
    assert Escape([c]) == EscapeChar(c) + Escape([c][1..]) == EscapeChar(c);
    EscapedChars(c);
  }

  lemma EscapedChars(c: char)
    ensures EscapeChar('\"') == "\\\"" && EscapeChar('\n') == "\\n" && EscapeChar('\\') == "\\\\"
    ensures c !in "\"\n\\" ==> EscapeChar(c) == [c]
  {
    assert "\"\n\\"[0] == '\"' && "\"\n\\"[1] == '\n' && "\"\n\\"[2] == '\\';
  }
}
