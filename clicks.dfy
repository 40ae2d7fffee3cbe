/** The click handler that `attachCodeBlockHandlers` (src/markdown.ts)
    and the card listener of src/main.ts install: a click inside a
    `.toggle` button flips the block's `revealed` class and relabels the
    button, a click inside a `.copy` button copies the code and relabels
    that button. The DOM is reduced to the parts the handler reads and
    writes. */
module CodeBlockClicks {
  import opened Common

  /** What the handler can change on a `.code-block` figure. */
  datatype BlockState = BlockState(revealed: bool, toggleLabel: string, copyLabel: string)

  /** The figure as the code-block transformer renders it: not revealed,
      with the labels "Reveal" and "Copy". */
  const Rendered := BlockState(false, "Reveal", "Copy")

  /** The toggle label agrees with the `revealed` class. */
  predicate LabelAgrees(b: BlockState) {
    b.toggleLabel == (if b.revealed then "Hide" else "Reveal")
  }

  /** The toggle part of the handler. */
  function Toggle(b: BlockState): (r: BlockState)
    ensures r.revealed == !b.revealed && r.copyLabel == b.copyLabel
    ensures LabelAgrees(r)
  {
    var revealed := !b.revealed;
    b.(revealed := revealed, toggleLabel := if revealed then "Hide" else "Reveal")
  }

  /** The state after one handler run on the block the click landed in.
      Without a clipboard, `navigator.clipboard.writeText` throws before
      the copy label changes. */
  function AfterClick(b: BlockState, onToggle: bool, onCopy: bool, clipboard: bool): (r: BlockState)
    ensures r.revealed == (b.revealed != onToggle)
    ensures onToggle ==> LabelAgrees(r)
    ensures !onToggle ==> r.toggleLabel == b.toggleLabel
    ensures r.copyLabel == if onCopy && clipboard then "Copied" else b.copyLabel
  {
    var t := if onToggle then Toggle(b) else b;
    if onCopy && clipboard then t.(copyLabel := "Copied") else t
  }

  /** After a toggle click the label is "Hide" exactly when the block is
      revealed, whatever the label said before. */
  lemma ToggleLabelIffRevealed(b: BlockState, onCopy: bool, clipboard: bool)
    ensures AfterClick(b, true, onCopy, clipboard).toggleLabel == "Hide"
        <==> AfterClick(b, true, onCopy, clipboard).revealed
  {
  }

  /** Two toggle clicks restore the state of a block whose label agreed with
      its class, in particular the rendered block with its label "Reveal". */
  lemma ToggleTwiceRestores(b: BlockState)
    requires LabelAgrees(b)
    ensures Toggle(Toggle(b)) == b
  {
  }

  lemma RenderedAgrees()
    ensures LabelAgrees(Rendered)
    ensures Toggle(Toggle(Rendered)).toggleLabel == "Reveal"
  {
    ToggleTwiceRestores(Rendered);
  }

  /** Every handler run keeps the label in agreement with the class. */
  lemma AfterClickKeepsAgreement(b: BlockState, onToggle: bool, onCopy: bool, clipboard: bool)
    requires LabelAgrees(b)
    ensures LabelAgrees(AfterClick(b, onToggle, onCopy, clipboard))
  {
  }

  /** The state after `n` listeners have run on the same click. */
  function AfterListeners(b: BlockState, onToggle: bool, onCopy: bool, clipboard: bool, n: nat): (r: BlockState)
    decreases n
  {
    if n == 0 then b else AfterListeners(AfterClick(b, onToggle, onCopy, clipboard), onToggle, onCopy, clipboard, n - 1)
  }

  /** With the handler bound twice, a toggle click flips the block twice
      and so changes nothing visible: binding must happen at most once. */
  lemma {:induction false} DoubleBindingCancelsToggle(b: BlockState, onCopy: bool, clipboard: bool)
    requires LabelAgrees(b) && !onCopy
    ensures AfterListeners(b, true, onCopy, clipboard, 2) == b
    ensures AfterListeners(b, true, onCopy, clipboard, 1) != b
  {
    var once := AfterClick(b, true, onCopy, clipboard);
    assert AfterListeners(b, true, onCopy, clipboard, 1) == AfterListeners(once, true, onCopy, clipboard, 0);
    assert AfterListeners(b, true, onCopy, clipboard, 2) == AfterListeners(once, true, onCopy, clipboard, 1);
    assert AfterListeners(once, true, onCopy, clipboard, 1)
        == AfterListeners(AfterClick(once, true, onCopy, clipboard), true, onCopy, clipboard, 0);
  }

  /** A rendered `.code-block` figure. */
  class CodeBlock {
    var revealed: bool
    var toggleLabel: string
    var copyLabel: string
    /** `block.querySelector("code")?.textContent`, absent without a code
        element. */
    const code: Option<string>

    constructor(code: Option<string>)
      ensures State() == Rendered && this.code == code
    {
      revealed := false;
      toggleLabel := "Reveal";
      copyLabel := "Copy";
      this.code := code;
    }

    function State(): BlockState
      reads this
    {
      BlockState(revealed, toggleLabel, copyLabel)
    }
  }

  /** Where a click lands: the nearest `.code-block` ancestor of the target,
      if any, and whether the target lies inside a `.toggle` and inside a
      `.copy` element. */
  datatype Click = Click(block: Option<CodeBlock>, onToggle: bool, onCopy: bool)

  /** The text the copy button writes to the clipboard. */
  function CopiedText(code: Option<string>): (r: string)
    ensures code.Some? ==> r == code.value
    ensures code.None? ==> r == ""
  {
    match code case Some(c) => c case None => ""
  }

  /** What one handler run did besides changing the block. */
  datatype Effect = Effect(written: Option<string>, threw: bool)

  /** One handler run on a block, shared by both listeners once they have
      found the block. */
  method RunOnBlock(block: CodeBlock, onToggle: bool, onCopy: bool, clipboard: bool) returns (e: Effect)
    modifies block
    ensures block.State() == AfterClick(old(block.State()), onToggle, onCopy, clipboard)
    ensures e.written == if onCopy && clipboard then Some(CopiedText(block.code)) else None
    ensures e.threw == (onCopy && !clipboard)
  {
    if onToggle {
      block.revealed := !block.revealed;
      block.toggleLabel := if block.revealed then "Hide" else "Reveal";
    }
    e := Effect(None, false);
    if onCopy {
      if !clipboard {
        e := Effect(None, true);
        return;
      }
      e := Effect(Some(CopiedText(block.code)), false);
      block.copyLabel := "Copied";
    }
  }

  /** The listener of `attachCodeBlockHandlers` on `root`, whose blocks are
      `rootBlocks`: clicks outside every block, or on a block outside the
      root, change nothing. */
  method HandleClick(rootBlocks: set<CodeBlock>, click: Click, clipboard: bool) returns (e: Effect)
    modifies if click.block.Some? then {click.block.value} else {}
    ensures click.block.None? || click.block.value !in rootBlocks ==> e == Effect(None, false)
    ensures click.block.Some? && click.block.value in rootBlocks ==>
      click.block.value.State() == AfterClick(old(click.block.value.State()), click.onToggle, click.onCopy, clipboard)
    ensures click.block.Some? && click.block.value in rootBlocks ==>
      e.written == (if click.onCopy && clipboard then Some(CopiedText(click.block.value.code)) else None)
      && e.threw == (click.onCopy && !clipboard)
    ensures click.block.Some? && click.block.value !in rootBlocks ==>
      click.block.value.State() == old(click.block.value.State())
  {
    e := Effect(None, false);
    if click.block.None? || click.block.value !in rootBlocks {
      return;
    }
    e := RunOnBlock(click.block.value, click.onToggle, click.onCopy, clipboard);
  }

  /** The card listener of src/main.ts: it asks only for an enclosing block,
      not for one inside the card. */
  method HandleClickMain(click: Click, clipboard: bool) returns (e: Effect)
    modifies if click.block.Some? then {click.block.value} else {}
    ensures click.block.None? ==> e == Effect(None, false)
    ensures click.block.Some? ==>
      click.block.value.State() == AfterClick(old(click.block.value.State()), click.onToggle, click.onCopy, clipboard)
    ensures click.block.Some? ==>
      e.written == (if click.onCopy && clipboard then Some(CopiedText(click.block.value.code)) else None)
      && e.threw == (click.onCopy && !clipboard)
  {
    e := Effect(None, false);
    if click.block.None? {
      return;
    }
    e := RunOnBlock(click.block.value, click.onToggle, click.onCopy, clipboard);
  }
}
