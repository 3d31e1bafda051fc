# milkdown-plugin-shiki: a verified model

The plugin colours the code blocks of a Milkdown (ProseMirror) editor. It
tokenizes the text of each code block with the shiki highlighter and turns
every token into an inline decoration `color: <token colour>` over the
document positions that token occupies. On each transaction it checks
whether the code blocks may have changed. If so, it recomputes the
decorations. If not, it keeps the previous decoration set, remapped through
the transaction's position mapping.

The model has three modules:

- `Blocks` (`blocks.dfy`) holds the values read from the editor and the
  tokenizer. A `CodeBlock` has a position, a node size, an optional
  `language` attribute and the tokenizer's output for its text. That output
  is one `Line` (a sequence of `Fragment(content, color)`) per line of text.
- `Highlight` (`highlight.dfy`) is `getDecorations`. `GetDecorations` and
  `DecorateBlock` are the imperative walk: a cursor `from`, nested loops
  over lines and fragments, and an output list that grows by one decoration
  per fragment. Each is proved equal to a specification function
  (`Decorations`, `BlockDecorations`). Lemmas then state what those
  functions promise: positions, widths, styles, contiguity, the skipped
  line-break position, ordering, and which slice of the output belongs to
  which line and block.
- `Gate` (`gate.dfy`) is the `codeBlockChanged` decision in `apply`, written
  as a predicate over the transaction and the two editor states. `Apply`
  returns either `Recompute(decorations of the new document)` or `Remap`.

Modelling decisions:

- The tokenizer (`codeToThemedTokens`) is an input: each block carries its
  token lines. `JoinLines(tokens)` is the text those tokens spell out, with
  lines separated by `'\n'`. A faithful tokenizer makes that equal to the
  block's text content.
- `findChildren` is an input: the sequence of code blocks in a state.
- The selection is an input: one boolean per state saying whether the
  parent of the selection head is a code block.
- `!language` is modelled as "absent, or the empty string". JavaScript
  `null` is not distinguished from an absent attribute.
- Text is a sequence of UTF-16 code units (`Text = seq<CodeUnit>`, with
  `CodeUnit = bv16`), as JavaScript strings are. `node.content.length` and
  editor positions both count code units, so a character outside the Basic
  Multilingual Plane (a surrogate pair) is two positions wide. Colours and
  language names are only compared or concatenated, so they stay `string`.
- A step's `from`/`to` are `Option<int>`, and `None` stands for `undefined`.
- The cursor advances by one after every line, the last one included.
  After a block it therefore stands at
  `pos + 1 + (total text length) + (number of lines)`.
- The first decoration starts at `pos + 1` only when the first token line
  is non-empty. After each empty line the cursor still advances by one.
- The gate's step test is `from <= pos && pos + nodeSize <= to`: the step's
  range contains the whole old block, not just its start position.

## Model

| member | source | states |
|---|---|---|
| `Highlight.GetDecorations` | src/index.ts:14-53 | the list pushed for all code blocks is the specification list `Decorations`: each block's decorations, in the order of the blocks |
| `Highlight.DecorateLine` | src/index.ts:40-47 | walking one line's fragments from `start` pushes exactly `LineDecorations(line, start)` and leaves the cursor at `start` plus the line's text length |
| `Highlight.DecorateBlock` | src/index.ts:19-50 | a block without a (non-empty) language pushes nothing, and its cursor stays at `pos + 1`; otherwise the pushed list is `BlockDecorations(block)` and the cursor ends at `pos + 1 + TotalWidth(tokens) + |tokens|` |
| `Highlight.Decorations` | src/index.ts:17-50 | a document with a single code block gets exactly that block's decorations |
| `Highlight.DecorationsEmpty` | src/index.ts:17-50 | a document has no decorations exactly when none of its code blocks has any |
| `Highlight.StyleNamesColor` | src/index.ts:42-44 | a decoration's style is `color: ` followed by the colour, so different colours give different styles |
| `Highlight.SurrogatePairWidth` | src/index.ts:41 | a concrete block whose first token is one character outside the Basic Multilingual Plane: that token is decorated over two positions, and the next token starts after both |
| `Blocks.HasLanguage` | src/index.ts:21-24 | a block is decorated only when its `language` is present and non-empty; absent or empty languages are falsy |
| `Highlight.BlockDecorations` | src/index.ts:21-24 | a block has no decorations when its language is absent or empty; otherwise it has exactly as many as its fragments on all lines |
| `Highlight.LineDecorations` | src/index.ts:40-47 | one line produces exactly one decoration per fragment |
| `Highlight.LinesDecorations` | src/index.ts:39-49 | the lines of a block produce exactly one decoration per fragment, over all lines |
| `Highlight.LineDecorationAt` | src/index.ts:41-46 | decoration `k` of a line runs from `start + |text of fragments before k|` to `start + |text of fragments up to k|` and is styled `color: ` followed by fragment `k`'s colour |
| `Highlight.LineFragmentAt` | src/index.ts:41-44 | `Covers`: decoration `k` of a line has width equal to fragment `k`'s content length, lies within the line's text, covers exactly that fragment's characters of the text, and carries its colour |
| `Highlight.LineContiguous` | src/index.ts:40-47 | within a line the first decoration starts at the line's start, each decoration ends where the next begins, and the last ends at the end of the line's text |
| `Highlight.LineOrdered` | src/index.ts:40-47 | a line's decorations do not overlap and are listed left to right |
| `Highlight.LineWithin` | src/index.ts:40-47 | every decoration of a line lies within the line's text, from the line's start on |
| `Highlight.LinesDecorationAt` | src/index.ts:39-49 | `Covers`: decoration `k` of a block belongs to fragment `k` of the flattened token lines: it lies within the joined text, covers exactly that fragment's characters of it (no gap, no overlap), has its width and carries its colour |
| `Highlight.LinesBounds` | src/index.ts:39-49 | every decoration of a block's lines lies between the start and the end of the text the lines spell out |
| `Highlight.LineSlice` | src/index.ts:39-49 | the decorations of line `i` form one contiguous run of the block's list, computed from that line's start; the next line starts exactly one position after this line's text |
| `Highlight.FirstDecorationAtBlockStart` | src/index.ts:20-44 | when the block has a language and its first line has a token, the first decoration starts at `block.pos + 1` |
| `Highlight.LineBreakUncovered` | src/index.ts:48 | the position skipped after each line is covered by no decoration of the block |
| `Highlight.LineBreakIsNewline` | src/index.ts:48 | the position skipped after a line that is not the last holds the `'\n'` of the joined text |
| `Highlight.LinesOrdered` | src/index.ts:39-49 | the decorations of a block never overlap and are listed left to right |
| `Highlight.BlockOrdered` | src/index.ts:20-49 | the decorations of one block never overlap and are listed left to right |
| `Highlight.LinesEnd` | src/index.ts:39-49 | every decoration of a block's lines ends before the cursor position reached after the last line |
| `Highlight.BlockInside` | src/index.ts:20-49 | when the tokens fit the block's content, every decoration of the block lies strictly inside the block |
| `Highlight.DocumentOrdered` | src/index.ts:17-50 | for blocks in document order whose tokens fit them, the decorations of the whole document never overlap and are listed left to right |
| `Highlight.DocumentWithin` | src/index.ts:17-50 | for such blocks, every decoration of the document lies strictly between the first block's start and the last block's end |
| `Highlight.BlockSlice` | src/index.ts:19-50 | the decorations of block `j` form one contiguous run of the document's list |
| `Gate.FirstLanguage` | src/index.ts:75 | the first block's language, or absent (`undefined`) when there are no blocks |
| `Gate.StepCoversBlock` | src/index.ts:76-84 | a step that covers an old block has both bounds, with `from <= to`, and the old document has at least one code block |
| `Gate.CodeBlockChanged` | src/index.ts:71-85 | the decision is true only for transactions that change the document, and false when neither state has any code block nor a head inside one |
| `Gate.Apply` | src/index.ts:66-91 | it recomputes exactly when `codeBlockChanged` holds, and then with the decorations of the new document; otherwise it remaps |
| `Gate.UnchangedDocumentRemaps` | src/index.ts:71-90 | a transaction that does not change the document never recomputes |
| `Gate.StateTriggersRecompute` | src/index.ts:71-75 | in a changing transaction, the head's parent being a code block in the new or the old state, a different number of code blocks, or a different first-block language (no block counting as absent) each force a recompute |
| `Gate.CoveringStepRecomputes` | src/index.ts:76-85 | in a changing transaction, a step with both bounds whose range contains an old block forces a recompute |
| `Gate.QuietEditRemaps` | src/index.ts:67-90 | a changing transaction remaps when: the head is outside code blocks before and after, the number of blocks and the first block's language are unchanged, and no step with both bounds contains an old block |
| `Gate.UnboundedStepIgnored` | src/index.ts:76-85 | inserting a step that lacks `from` or `to` anywhere among the steps never changes the decision |
| `Gate.MoreStepsKeepRecompute` | src/index.ts:76-85 | adding steps before or after the existing ones never turns a recompute into a remap |
| `Gate.EditInsideBlockRemaps` | src/index.ts:71-85 | a concrete case that remaps: an insertion strictly inside the only code block of a changed document, with the head outside code blocks and the first language unchanged |

## Left out

- Creating the highlighter asynchronously (fixed `night-owl` theme; `javascript`, `tsx`, `markdown` and `php` languages), `$proseAsync`, `Plugin`/`PluginKey` and the `decorations` prop (src/index.ts:55-64, 93-97). These are host and library plumbing.
- The `init` hook (src/index.ts:65) only calls `getDecorations` on the initial document, which is `Highlight.GetDecorations`.
- `codeToThemedTokens` (src/index.ts:26-37) is an external library. Its per-line output is an input of the model. The model does not cover the tokenizer throwing, which it may do for a language the highlighter has not loaded (only four are loaded, at src/index.ts:58). The block callback is `async` (src/index.ts:19), so such a throw rejects only that block's promise. That block gets no decorations, because nothing has been pushed for it yet, and the remaining blocks are still decorated. The model always has tokens for every block.
- `findChildren` (src/index.ts:17, 69-70) is an external tree walk. Its result is an input sequence of code blocks.
- `DecorationSet.create` and `decorationSet.map(transaction.mapping, …)` (src/index.ts:52, 90) belong to the host editor. The model records only which branch is taken, and the decorations handed to `create`.
- Resolving `selection.$head.parent` (src/index.ts:67-68) is abstracted to one boolean per state.
- The `async` on the block callback (src/index.ts:19) contains no `await`, so its body runs synchronously and finishes before `DecorationSet.create`. It is modelled as an ordinary call. The only thing `async` changes, what a throw does, is described in the `codeToThemedTokens` line above.
- Colours are strings taken as given. A missing colour (rendered `color: undefined` by JavaScript) is not modelled separately.
