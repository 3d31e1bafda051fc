/** The values the highlighting plugin reads from the editor and the tokenizer. */
module Blocks {

  /** An optional value; `None` stands for JavaScript's `undefined`. */
  datatype Option<+T> = None | Some(value: T)

  /**
   * One UTF-16 code unit. JavaScript strings are sequences of these, their
   * `length` counts them, and so do the editor's document positions.
   */
  type CodeUnit = bv16

  /** The text of a code block or of a token, as JavaScript holds it. */
  type Text = seq<CodeUnit>

  /** The code unit of a line feed, which separates the lines of a code block's text. */
  const LineFeed: CodeUnit := 0x0A

  /** One token of the tokenizer's output, flattened to its text and its colour. */
  datatype Fragment = Fragment(content: Text, color: string)

  /** The tokens of one line of a code block, in order. */
  type Line = seq<Fragment>

  /**
   * A code-block node as found in the document: its position, its size, its
   * `language` attribute, and the tokenizer's output for its text content
   * under that language (one `Line` per line of text).
   */
  datatype CodeBlock = CodeBlock(pos: nat, nodeSize: nat, language: Option<string>, tokens: seq<Line>)

  /** The `language` attribute is truthy: present and not the empty string. */
  function HasLanguage(b: CodeBlock): (r: bool)
    ensures r ==> b.language.Some? && |b.language.value| > 0
    ensures b.language == None || b.language == Some("") ==> !r
  {
    b.language.Some? && b.language.value != ""
  }
}
