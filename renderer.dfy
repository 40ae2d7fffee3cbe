/** The state the card renderer of src/markdown.ts keeps: its normalised
    configuration, the highlighter once initialisation has finished, and the
    roots whose clicks it already handles. */
module Renderer {
  import opened Common
  import opened MarkdownConfig
  import Highlight
  import CodeBlockClicks

  /** An element handlers can be attached to: the blocks it contains, whether
      it carries the `clipboard` class, and how many click listeners are
      registered on it. */
  class Root {
    const blocks: set<CodeBlockClicks.CodeBlock>
    var clipboardClass: bool
    var listeners: nat

    constructor(blocks: set<CodeBlockClicks.CodeBlock>)
      ensures this.blocks == blocks && !clipboardClass && listeners == 0
    {
      this.blocks := blocks;
      clipboardClass := false;
      listeners := 0;
    }
  }

  class MarkdownRenderer {
    const config: Config
    var highlighter: Option<Highlight.Highlighter>
    var boundRoots: set<Root>

    /** `new MarkdownRenderer({ config })`: the configuration is normalised
        once, no highlighter is there yet and no root is bound. */
    constructor(options: Option<PartialConfig>)
      ensures config == NormalizeConfig(options)
      ensures highlighter.None? && boundRoots == {}
    {
      config := NormalizeConfig(options);
      highlighter := None;
      boundRoots := {};
    }

    /** The end of `startHighlighterInit`: a highlighter that was created is
        kept; a failed initialisation leaves the renderer without one, so it
        renders plain code from then on. */
    method FinishInit(created: Option<Highlight.Highlighter>)
      modifies this
      ensures highlighter == if created.Some? then created else old(highlighter)
      ensures boundRoots == old(boundRoots)
    {
      if created.Some? {
        highlighter := created;
      }
    }

    /** `attachCodeBlockHandlers(root)`: a root is bound at most once. */
    method Attach(root: Root, clipboard: bool)
      modifies this, root
      ensures boundRoots == old(boundRoots) + {root}
      ensures highlighter == old(highlighter)
      ensures root in old(boundRoots) ==>
        root.listeners == old(root.listeners) && root.clipboardClass == old(root.clipboardClass)
      ensures root !in old(boundRoots) ==>
        root.listeners == old(root.listeners) + 1
        && root.clipboardClass == (old(root.clipboardClass) || clipboard)
    {
      if root in boundRoots {
        return;
      }
      boundRoots := boundRoots + {root};
      if clipboard {
        root.clipboardClass := true;
      }
      root.listeners := root.listeners + 1;
    }

    /** Binding the same root twice leaves one listener on it. */
    method AttachTwice(root: Root, clipboard: bool)
      requires root !in boundRoots
      modifies this, root
      ensures root.listeners == old(root.listeners) + 1
      ensures root in boundRoots
    {
      Attach(root, clipboard);
      Attach(root, clipboard);
    }

    /** `highlight` of this renderer at its current state. */
    function HighlightBlock(escape: string -> string, code: string, lang: string, meta: string): (r: Option<string>)
      reads this
      ensures highlighter.None? ==> r == Some(Highlight.PlainBlock(escape, code))
    {
      Highlight.HighlightBlock(highlighter, escape, config.themes, code, lang, meta)
    }
  }
}
