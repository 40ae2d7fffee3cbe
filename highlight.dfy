/** Language resolution and fallback when code is highlighted: the
    `highlight` method and the `code_inline` renderer of src/markdown.ts,
    and the older `highlight` and `code_inline` of src/main.ts. Shiki itself
    is a parameter: the languages it has loaded and a `codeToHtml` that
    either yields HTML or throws. */
module Highlight {
  import opened Common
  import MarkdownConfig

  /** The transformers passed to `codeToHtml`. */
  datatype Transformer =
    | MetaHighlight | MetaWordHighlight | NotationErrorLevel | NotationFocus
    | CodeBlock | CodeInline

  /** `this.transformers`: the meta and notation transformers. */
  const MetaTransformers: seq<Transformer> :=
    [MetaHighlight, MetaWordHighlight, NotationErrorLevel, NotationFocus]

  /** The options of one `codeToHtml` call (`defaultColor: false` is common
      to all of them); `meta` is the `{ __raw: meta }` option, when given. */
  datatype Request = Request(
    lang: string,
    themes: MarkdownConfig.Themes,
    meta: Option<string>,
    transformers: seq<Transformer>)

  /** A ready highlighter: `getLoadedLanguages()` and `codeToHtml`, whose
      `None` stands for a thrown exception. */
  datatype Highlighter = Highlighter(
    loaded: seq<string>,
    codeToHtml: (string, Request) -> Option<string>)

  // ---------------------------------------------------------------------
  // src/markdown.ts
  // ---------------------------------------------------------------------

  /** The language the first attempt uses: the lower-cased name when it is
      loaded, `"text"` otherwise. */
  function ResolveLanguage(loaded: seq<string>, lang: string): (r: string)
    ensures r == Lower(lang) <==> Lower(lang) in loaded || Lower(lang) == "text"
    ensures r in loaded || r == "text"
  {
    var l := Lower(lang);
    if l in loaded then l else "text"
  }

  /** The first, full request of a fenced block. */
  function BlockRequest(lang: string, themes: MarkdownConfig.Themes, meta: string): Request {
    Request(lang, themes, Some(meta), MetaTransformers + [CodeBlock])
  }

  /** The retry after an exception: plain text, no meta, only the toolbar. */
  function RetryRequest(themes: MarkdownConfig.Themes): Request {
    Request("text", themes, None, [CodeBlock])
  }

  /** `<pre><code>…</code></pre>` around escaped code. */
  function PlainBlock(escape: string -> string, code: string): string {
    "<pre><code>" + escape(code) + "</code></pre>"
  }

  /** `<code>…</code>` around escaped code. */
  function PlainInline(escape: string -> string, code: string): string {
    "<code>" + escape(code) + "</code>"
  }

  /** `highlight(code, lang, meta)` of the renderer; `None` when the retry
      throws as well, an exception that leaves `render`. */
  function HighlightBlock(highlighter: Option<Highlighter>, escape: string -> string,
                          themes: MarkdownConfig.Themes, code: string, lang: string,
                          meta: string): (r: Option<string>)
    ensures highlighter.None? ==> r == Some(PlainBlock(escape, code))
    ensures highlighter.Some? ==>
      var h := highlighter.value;
      var first := h.codeToHtml(code, BlockRequest(ResolveLanguage(h.loaded, lang), themes, meta));
      (first.Some? ==> r == first)
      && (first.None? ==> r == h.codeToHtml(code, RetryRequest(themes)))
  {
    match highlighter
    case None => Some(PlainBlock(escape, code))
    case Some(h) =>
      var l := ResolveLanguage(h.loaded, lang);
      var first := h.codeToHtml(code, BlockRequest(l, themes, meta));
      if first.Some? then first else h.codeToHtml(code, RetryRequest(themes))
  }

  /** Every request the renderer sends for a block names a loaded language
      or plain text, and only the first one carries meta. */
  lemma BlockRequestsAreResolved(h: Highlighter, lang: string, themes: MarkdownConfig.Themes, meta: string)
    ensures var req := BlockRequest(ResolveLanguage(h.loaded, lang), themes, meta);
      (req.lang in h.loaded || req.lang == "text") && req.meta == Some(meta)
      && req.transformers[|req.transformers| - 1] == CodeBlock
    ensures RetryRequest(themes).lang == "text" && RetryRequest(themes).meta.None?
  {
  }

  /** When nothing throws, the block is whatever the first attempt gives. */
  lemma HighlightBlockFailsOnlyTwice(highlighter: Option<Highlighter>, escape: string -> string,
                                     themes: MarkdownConfig.Themes, code: string, lang: string, meta: string)
    ensures HighlightBlock(highlighter, escape, themes, code, lang, meta).None?
        <==> highlighter.Some?
             && highlighter.value.codeToHtml(code, BlockRequest(ResolveLanguage(highlighter.value.loaded, lang), themes, meta)).None?
             && highlighter.value.codeToHtml(code, RetryRequest(themes)).None?
  {
  }

  /** Inline code is highlighted only with a tag, a highlighter and a
      loaded lower-cased language, and only when the call does not throw. */
  predicate InlineHighlights(highlighter: Option<Highlighter>, themes: MarkdownConfig.Themes,
                             content: string, lang: Option<string>)
  {
    lang.Some? && lang.value != "" && highlighter.Some?
    && Lower(lang.value) in highlighter.value.loaded
    && highlighter.value.codeToHtml(content, InlineRequest(Lower(lang.value), themes)).Some?
  }

  function InlineRequest(lang: string, themes: MarkdownConfig.Themes): Request {
    Request(lang, themes, None, [CodeInline])
  }

  /** The `code_inline` renderer of src/markdown.ts. */
  function InlineCodeHtml(highlighter: Option<Highlighter>, escape: string -> string,
                          themes: MarkdownConfig.Themes, content: string, lang: Option<string>): (r: string)
    ensures InlineHighlights(highlighter, themes, content, lang)
      ==> Some(r) == highlighter.value.codeToHtml(content, InlineRequest(Lower(lang.value), themes))
    ensures !InlineHighlights(highlighter, themes, content, lang) ==> r == PlainInline(escape, content)
  {
    if lang.Some? && lang.value != "" && highlighter.Some? then
      var l := Lower(lang.value);
      if l in highlighter.value.loaded then
        match highlighter.value.codeToHtml(content, InlineRequest(l, themes))
        case Some(html) => html
        case None => PlainInline(escape, content)
      else PlainInline(escape, content)
    else PlainInline(escape, content)
  }

  // ---------------------------------------------------------------------
  // src/main.ts: no readiness check, no lower-casing, no loaded check
  // ---------------------------------------------------------------------

  /** `highlight` of src/main.ts over its bundled highlighter and the
      fixed vitesse themes. */
  function HighlightBlockMain(h: Highlighter, code: string, lang: string, meta: string): (r: Option<string>)
    ensures var first := h.codeToHtml(code, BlockRequest(lang, MainThemes, meta));
      (first.Some? ==> r == first)
      && (first.None? ==> r == h.codeToHtml(code, RetryRequest(MainThemes)))
  {
    var first := h.codeToHtml(code, BlockRequest(lang, MainThemes, meta));
    if first.Some? then first else h.codeToHtml(code, RetryRequest(MainThemes))
  }

  const MainThemes := MarkdownConfig.Themes("vitesse-light", "vitesse-dark")

  /** The `code_inline` renderer of src/main.ts: any tag is handed to the
      highlighter as written. */
  function InlineCodeHtmlMain(h: Highlighter, escape: string -> string, content: string,
                              lang: Option<string>): (r: string)
    ensures lang.Some? && lang.value != "" && h.codeToHtml(content, InlineRequest(lang.value, MainThemes)).Some?
      ==> Some(r) == h.codeToHtml(content, InlineRequest(lang.value, MainThemes))
    ensures lang.None? || lang.value == "" ==> r == PlainInline(escape, content)
    ensures lang.Some? && h.codeToHtml(content, InlineRequest(lang.value, MainThemes)).None?
      ==> r == PlainInline(escape, content)
  {
    if lang.Some? && lang.value != "" then
      match h.codeToHtml(content, InlineRequest(lang.value, MainThemes))
      case Some(html) => html
      case None => PlainInline(escape, content)
    else PlainInline(escape, content)
  }

  /** For a lower-case name the highlighter has loaded, the two block
      renderers send the same first request and give the same block. */
  lemma BlockRenderersAgree(h: Highlighter, escape: string -> string, code: string, lang: string, meta: string)
    requires Lower(lang) == lang && lang in h.loaded
    ensures HighlightBlock(Some(h), escape, MainThemes, code, lang, meta) == HighlightBlockMain(h, code, lang, meta)
  {
  }

  /** The two block renderers part ways on a name the highlighter has not
      loaded: src/markdown.ts asks for plain text where src/main.ts passes
      the name on. */
  lemma BlockRenderersDifferOnUnloaded(h: Highlighter, code: string, lang: string, meta: string)
    requires Lower(lang) !in h.loaded && Lower(lang) != "text"
    ensures BlockRequest(ResolveLanguage(h.loaded, lang), MainThemes, meta).lang == "text"
    ensures BlockRequest(lang, MainThemes, meta).lang == lang
  {
  }

  /** For a lower-case loaded tag both inline renderers agree; for a tag
      outside the loaded languages src/markdown.ts never calls the
      highlighter. */
  lemma InlineRenderersCompared(h: Highlighter, escape: string -> string, content: string, lang: string)
    ensures Lower(lang) == lang && lang in h.loaded
      ==> InlineCodeHtml(Some(h), escape, MainThemes, content, Some(lang))
          == InlineCodeHtmlMain(h, escape, content, Some(lang))
    ensures Lower(lang) !in h.loaded
      ==> InlineCodeHtml(Some(h), escape, MainThemes, content, Some(lang)) == PlainInline(escape, content)
  {
  }
}
