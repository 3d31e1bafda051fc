/**
 * The plugin's state update: on every transaction it either recomputes the
 * decorations of the new document or keeps the previous set, remapped
 * through the transaction's position mapping.
 */
module Gate {
  import opened Blocks
  import Highlight

  /** An edit step; either bound may be missing, as on steps that are not range replacements. */
  datatype Step = Step(from: Option<int>, to: Option<int>)

  /** A transaction: whether it changed the document, and its steps. */
  datatype Transaction = Transaction(docChanged: bool, steps: seq<Step>)

  /**
   * What the plugin reads from one editor state: whether the parent node of
   * the selection's head is a code block, and the document's code blocks
   * in document order.
   */
  datatype EditorState = EditorState(headInCodeBlock: bool, codeBlocks: seq<CodeBlock>)

  /** The new plugin state: freshly computed decorations, or the old set remapped. */
  datatype Update = Recompute(decorations: seq<Highlight.Decoration>) | Remap

  /** The language attribute of the first code block; `None` when there is no block. */
  function FirstLanguage(blocks: seq<CodeBlock>): (r: Option<string>)
    ensures blocks == [] ==> r == None
    ensures r.Some? ==> blocks != [] && blocks[0].language == r
  {
    if blocks == [] then None else blocks[0].language
  }

  /** The step has both bounds and its range contains some block of the old document. */
  function StepCoversBlock(s: Step, oldBlocks: seq<CodeBlock>): (r: bool)
    ensures r ==> oldBlocks != [] && s.from.Some? && s.to.Some? && s.from.value <= s.to.value
  {
    s.from.Some? && s.to.Some? &&
    exists j :: 0 <= j < |oldBlocks| &&
      oldBlocks[j].pos >= s.from.value && oldBlocks[j].pos + oldBlocks[j].nodeSize <= s.to.value
  }

  /** Some step of the transaction covers a block of the old document. */
  predicate SomeStepCoversBlock(steps: seq<Step>, oldBlocks: seq<CodeBlock>)
  {
    exists i :: 0 <= i < |steps| && StepCoversBlock(steps[i], oldBlocks)
  }

  /** The plugin's decision to retokenize. */
  function CodeBlockChanged(tr: Transaction, oldState: EditorState, state: EditorState): (r: bool)
    ensures r ==> tr.docChanged
    ensures (!oldState.headInCodeBlock && !state.headInCodeBlock &&
             oldState.codeBlocks == [] && state.codeBlocks == []) ==> !r
  {
    tr.docChanged &&
    (state.headInCodeBlock
     || oldState.headInCodeBlock
     || |oldState.codeBlocks| != |state.codeBlocks|
     || FirstLanguage(oldState.codeBlocks) != FirstLanguage(state.codeBlocks)
     || SomeStepCoversBlock(tr.steps, oldState.codeBlocks))
  }

  /** The state update run for every transaction. */
  method Apply(tr: Transaction, oldState: EditorState, state: EditorState) returns (u: Update)
    ensures u.Recompute? <==> CodeBlockChanged(tr, oldState, state)
    ensures u.Recompute? ==> u.decorations == Highlight.Decorations(state.codeBlocks)
  {
    if CodeBlockChanged(tr, oldState, state) {
      var decorations := Highlight.GetDecorations(state.codeBlocks);
      u := Recompute(decorations);
    } else {
      u := Remap;
    }
  }

  // ---------------------------------------------------------------------
  // When the gate fires
  // ---------------------------------------------------------------------

  /** A transaction that leaves the document unchanged never retokenizes. */
  lemma UnchangedDocumentRemaps(tr: Transaction, oldState: EditorState, state: EditorState)
    requires !tr.docChanged
    ensures !CodeBlockChanged(tr, oldState, state)
  {
  }

  /**
   * In a changing transaction, the head in a code block (before or after),
   * a different number of code blocks, or a different first language each
   * retokenize on their own.
   */
  lemma StateTriggersRecompute(tr: Transaction, oldState: EditorState, state: EditorState)
    requires tr.docChanged
    requires state.headInCodeBlock || oldState.headInCodeBlock
          || |oldState.codeBlocks| != |state.codeBlocks|
          || FirstLanguage(oldState.codeBlocks) != FirstLanguage(state.codeBlocks)
    ensures CodeBlockChanged(tr, oldState, state)
  {
  }

  /** Deleting or rewriting a whole old block (a step whose range contains it) retokenizes. */
  lemma CoveringStepRecomputes(tr: Transaction, oldState: EditorState, state: EditorState, i: nat, j: nat)
    requires tr.docChanged && i < |tr.steps| && j < |oldState.codeBlocks|
    requires tr.steps[i].from.Some? && tr.steps[i].to.Some?
    requires tr.steps[i].from.value <= oldState.codeBlocks[j].pos
    requires oldState.codeBlocks[j].pos + oldState.codeBlocks[j].nodeSize <= tr.steps[i].to.value
    ensures CodeBlockChanged(tr, oldState, state)
  {
    assert StepCoversBlock(tr.steps[i], oldState.codeBlocks);
  }

  /**
   * An edit away from every code block keeps the old decorations: the head is
   * outside code blocks before and after, the blocks' number and first
   * language are unchanged, and no step contains an old block.
   */
  lemma QuietEditRemaps(tr: Transaction, oldState: EditorState, state: EditorState)
    requires !oldState.headInCodeBlock && !state.headInCodeBlock
    requires |oldState.codeBlocks| == |state.codeBlocks|
    requires FirstLanguage(oldState.codeBlocks) == FirstLanguage(state.codeBlocks)
    requires forall i, j | 0 <= i < |tr.steps| && 0 <= j < |oldState.codeBlocks| ::
               (tr.steps[i].from.Some? && tr.steps[i].to.Some?) ==>
                 (oldState.codeBlocks[j].pos < tr.steps[i].from.value ||
                  tr.steps[i].to.value < oldState.codeBlocks[j].pos + oldState.codeBlocks[j].nodeSize)
    ensures !CodeBlockChanged(tr, oldState, state)
  {
  }

  /** A step that lacks a bound changes nothing in the decision, wherever it appears. */
  lemma UnboundedStepIgnored(tr: Transaction, oldState: EditorState, state: EditorState,
                             before: seq<Step>, s: Step, after: seq<Step>)
    requires s.from.None? || s.to.None?
    ensures CodeBlockChanged(tr.(steps := before + [s] + after), oldState, state)
        <==> CodeBlockChanged(tr.(steps := before + after), oldState, state)
  {
    var blocks := oldState.codeBlocks;
    var withS := before + [s] + after;
    var without := before + after;
    if SomeStepCoversBlock(withS, blocks) {
      var i :| 0 <= i < |withS| && StepCoversBlock(withS[i], blocks);
      var i' := if i < |before| then i else i - 1;
      assert without[i'] == withS[i];
    }
    if SomeStepCoversBlock(without, blocks) {
      var i :| 0 <= i < |without| && StepCoversBlock(without[i], blocks);
      var i' := if i < |before| then i else i + 1;
      assert withS[i'] == without[i];
    }
  }

  /** Further steps, before or after the existing ones, never turn a recompute into a remap. */
  lemma MoreStepsKeepRecompute(tr: Transaction, oldState: EditorState, state: EditorState,
                               before: seq<Step>, after: seq<Step>)
    requires CodeBlockChanged(tr, oldState, state)
    ensures CodeBlockChanged(tr.(steps := before + tr.steps + after), oldState, state)
  {
    var steps := before + tr.steps + after;
    if SomeStepCoversBlock(tr.steps, oldState.codeBlocks) {
      var i :| 0 <= i < |tr.steps| && StepCoversBlock(tr.steps[i], oldState.codeBlocks);
      assert steps[|before| + i] == tr.steps[i];
    }
  }

  /**
   * The gate looks at the steps only for ranges that contain a whole old
   * block, so typing inside a block while the head sits elsewhere (for
   * instance a programmatic insertion) keeps the stale decorations.
   */
  lemma EditInsideBlockRemaps()
    ensures var block := CodeBlock(2, 10, Some("javascript"), []);
            var edited := CodeBlock(2, 11, Some("javascript"), []);
            !CodeBlockChanged(Transaction(true, [Step(Some(5), Some(5))]),
                              EditorState(false, [block]), EditorState(false, [edited]))
  {
  }
}
