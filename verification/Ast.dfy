/** The syntax tree of the HAR configuration language. */
module Ast {
  import Lexer

  datatype Value =
    | Identifier(name: string)
    | Text(text: string)
    | Numeric(number: string)
    | Quantity(amount: string, unit: string)
    | Range(start: string, end: string)
    | List(items: seq<Value>)

  datatype Field = Field(key: string, value: Value, span: Lexer.Span)

  datatype Block = Block(kind: string, name: string, fields: seq<Field>, span: Lexer.Span)

  datatype Program = Program(sourceName: string, declarations: seq<Block>)
}
