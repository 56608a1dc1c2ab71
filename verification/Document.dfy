// The document that every artifact renderer takes.
module Document {

  datatype Block =
    | Heading(level: nat, text: string)
    | Paragraph(text: string)
    | BulletList(items: seq<string>)
    | NumberedList(items: seq<string>)
    | Table(headers: seq<string>, rows: seq<seq<string>>)
    | Code(language: string, code: string)
    | PageBreak

  datatype Document = Document(title: string, blocks: seq<Block>)

  /** `level.clamp(1, 6)`. */
  function ClampLevel(level: nat): (l: nat)
    ensures 1 <= l <= 6 && (1 <= level <= 6 ==> l == level)
  {
    if level < 1 then 1 else if level > 6 then 6 else level
  }
}
