# Anki Markdown: a verified model of its core

Anki Markdown renders the fields of Anki cards as Markdown. A card
template loads a small script. The script normalises a configuration. It
sanitises raw HTML in the text. It renders fenced and inline code through
the Shiki highlighter. It wraps each code block in a figure with a
toolbar, and wires the toolbar's Reveal and Copy buttons. On the Python
side, the add-on keeps a store of Shiki grammar and theme modules in the
media folder. It downloads them from esm.sh, rewrites their imports to
local files, detects broken or incomplete grammars, and cleans up unused
ones. Two build scripts list the bundled languages and themes, validate
the default configuration against them, and print Python lists wrapped
to 80 columns.

The model is split into one module per concern:

- `Common`: JavaScript and Python whitespace, trimming, ASCII case
  folding, joining, and first-occurrence de-duplication.
- `MarkdownConfig`: the renderer's configuration and `normalizeConfig`.
- `HtmlAllow`: the allow-list sanitiser and the `<br>` step of `decodeField`.
- `Fence`: the fence rule.
- `InlineCode`: the `` `code`{lang} `` rule.
- `Highlight`: the block and inline highlighting choices.
- `Preload`: which grammar and theme modules are requested, and which loads are kept.
- `CodeBlockClicks`: the click handler.
- `Hast`: the `code-block` and `code-inline` tree transformers.
- `Renderer`: the renderer object's state.
- `MainPage`: the standalone page's `render`.
- `ShikiText`: the esm.sh URL and the import regexes.
- `ShikiFiles`: the store's file names and staleness.
- `ShikiDownload`: the recursive grammar download.
- `ShikiSync`: cleanup and sync.
- `ShikiAssets`: the `ShikiStore` class.
- `ShikiConfig`: the add-on's config sanitiser and defaults.
- `LanguageCatalogue`: the build scripts' name lists, their validation and the version lookup.
- `PyList`: `formatPyList`.

The following are parameters of the model:

- The highlighter's `codeToHtml` is a function from code and request to
  an optional HTML string. `None` stands for an exception.
- `escapeHtml` is a function, and so is the markdown renderer.
- The network is a finite map from module URL to module text. A missing
  URL stands for a fetch that raises.
- The store directory is a map from file name to file text.
- The parsed JSON is a small `Json` datatype in which objects are
  association lists.

## Model

| member | source | states |
|---|---|---|
| `MarkdownConfig.CleanNames` | src/markdown.ts:46-59 | the cleaned list has no duplicates; every entry is trimmed and non-empty; a name is in it exactly when some present entry trims to it |
| `MarkdownConfig.TrimmedNonEmptyOrder` | src/markdown.ts:48-50 | trimming and dropping empty entries keeps the order of first appearance: a name that first appears earlier among the trimmed names first appears earlier in the raw list |
| `MarkdownConfig.CleanNamesOrder` | src/markdown.ts:46-52 | of two cleaned names, the one listed first is the one whose first raw entry comes first |
| `MarkdownConfig.TrimmedNonEmptyMembers` | src/markdown.ts:48-50 | after trimming and dropping falsy entries, a name remains exactly when it is non-empty and some entry trims to it |
| `MarkdownConfig.NormalizeConfig` | src/markdown.ts:45-73 | no config gives the defaults; otherwise the languages and available languages are the cleaned lists, missing themes fall back to vitesse-light and vitesse-dark, and a missing `cardless` is false |
| `MarkdownConfig.NormalizeIdempotent` | src/markdown.ts:45-73 | normalising a normalised config gives it back unchanged |
| `MarkdownConfig.TrimmedNonEmptyOfClean` | src/markdown.ts:48-50 | a list of already trimmed non-empty names passes the clean-up unchanged |
| `MarkdownConfig.NormalizeExample` | src/markdown.ts:45-73 | `[" c ", null, "", "js", "c"]` normalises to `["c", "js"]` |
| `HtmlAllow.AllowedTagIsPattern` | src/markdown.ts:41 | the scanning test accepts a string exactly when it is `<`, an optional `/`, an allowed tag name in any letter case, optionally whitespace and any text without `>`, then `>` |
| `HtmlAllow.Sanitize` | src/markdown.ts:42 | the output is the input unchanged or empty, and it is non-empty exactly when the trimmed input is one allowed tag |
| `HtmlAllow.SanitizeRefusesMarkup` | src/markdown.ts:41-42 | a fragment that closes a tag and continues with text is dropped |
| `HtmlAllow.AttributesNotInspected` | src/markdown.ts:41 | any attribute text without `>` after an allowed name passes the allow-list |
| `HtmlAllow.SanitizeRefusesScript` | src/markdown.ts:41-42 | `<script>` is dropped |
| `HtmlAllow.SanitizeKeepsPadding` | src/markdown.ts:42 | an allowed tag padded with whitespace is kept with its padding |
| `HtmlAllow.SanitizeKeepsClosingTag` | src/markdown.ts:41-42 | `</kbd>` is kept |
| `HtmlAllow.BreaksToNewlinesPlain` | src/markdown.ts:96 | text without `<` is left as it is |
| `HtmlAllow.BreaksRoundTrip` | src/markdown.ts:96 | writing each newline as `<br>` and decoding gives the text back |
| `Fence.SplitWs` | src/markdown.ts:129 | splitting always gives at least one piece |
| `Fence.SplitWsPieces` | src/markdown.ts:129 | the pieces contain no whitespace; only the first and the last can be empty; the first is empty only for empty info or info that starts with whitespace |
| `Fence.SplitWsJoin` | src/markdown.ts:129 | joining the pieces with single spaces gives the info with every whitespace run collapsed to one space |
| `Fence.SplitWsHead` | src/markdown.ts:129 | the first piece is the text before the first whitespace |
| `Fence.SplitWsTail` | src/markdown.ts:129 | the other pieces are those of the text after the first whitespace run |
| `Fence.InfoMeta` | src/markdown.ts:129-130 | `rest.join(" ")` is empty for info without whitespace; otherwise it is the text after the first whitespace run, each further run collapsed to one space |
| `Fence.SplitJoin` | src/markdown.ts:129 | splitting words joined by single spaces gives the words back |
| `Fence.FenceArgs` | src/markdown.ts:127-131 | the language is the text before the first whitespace, or `text` when that is empty; the meta is `rest.join(" ")` as `Fence.InfoMeta` states it; the code is the content without trailing whitespace |
| `Fence.FenceOfWords` | src/markdown.ts:127-131 | info `lang w1 w2 …` gives language `lang` and meta `w1 w2 …` |
| `Fence.FenceLanguageOnly` | src/main.ts:95-99 | info that is one word gives that language and an empty meta |
| `Fence.FenceLeadingSpace` | src/markdown.ts:129-130 | info that starts with whitespace gives language `text`, and everything after the leading run, runs collapsed, goes to the meta |
| `InlineCode.TagMatchSound` | src/markdown.ts:140 | a match means the text is `{`, an optional `.`, a name of word characters (and `-`), `}`, then a rest without line terminators, and the match returns that name and rest |
| `InlineCode.TagMatchComplete` | src/markdown.ts:140 | every text of that shape is matched with its name and rest |
| `InlineCode.Tag` | src/markdown.ts:136-146 | the pass never lengthens the child list |
| `InlineCode.TagIsLocal` | src/markdown.ts:136-146 | the pass equals the concatenation of independent per-position pieces: each `code_inline` followed by a matching text takes the language, and that text keeps its rest or is removed when the rest is empty |
| `InlineCode.TagNoopIff` | src/markdown.ts:136-146 | the pass changes nothing exactly when no `code_inline` is followed by a matching text token |
| `InlineCode.BlockToken.TagChildren` | src/markdown.ts:136-146 | the in-place loop with its splice leaves exactly the children the pass computes |
| `InlineCode.InlineCodeLangRule` | src/markdown.ts:133-148 | each inline token with children gets the pass, and every other token is left as it was |
| `InlineCode.TagExampleDotRest` | src/markdown.ts:140-145 | `` `x`{.py} and `` gives `x` language `py` and leaves the text ` and` |
| `InlineCode.TagExampleBare` | src/markdown.ts:140-145 | `` `x`{js} `` gives `x` language `js` and removes the emptied text token |
| `InlineCode.TagExampleHyphen` | src/markdown.ts:140 | `{objective-c}` is a language tag for the card renderer |
| `InlineCode.TagExampleNoHyphen` | src/main.ts:109 | the standalone page's `\w+` leaves `{objective-c}` as text |
| `InlineCode.NoHyphenTagFails` | src/main.ts:109 | `\w+` does not match `{objective-c}` |
| `Highlight.ResolveLanguage` | src/markdown.ts:264-267 | the lower-cased language is kept exactly when it is loaded or is `text`; the result is always loaded or `text` |
| `Highlight.HighlightBlock` | src/markdown.ts:259-285 | without a highlighter the escaped code is wrapped in `<pre><code>`; otherwise the first call's result is used, and on failure the plain-text retry's result |
| `Highlight.BlockRequestsAreResolved` | src/markdown.ts:270-283 | the first request uses a loaded language or `text` with the meta and all transformers; the retry uses `text`, no meta and the code-block transformer only |
| `Highlight.HighlightBlockFailsOnlyTwice` | src/markdown.ts:269-284 | the block renderer fails only when the highlighter fails both calls |
| `Highlight.InlineCodeHtml` | src/markdown.ts:150-168 | inline code is highlighted exactly when it has a language, the highlighter exists, the lower-cased language is loaded and the call succeeds; otherwise it is `<code>` with the escaped text |
| `Highlight.HighlightBlockMain` | src/main.ts:84-90 | the standalone page passes the language through as written, then retries as `text` |
| `Highlight.InlineCodeHtmlMain` | src/main.ts:119-132 | the standalone page highlights any non-empty language whose call succeeds, and escapes otherwise |
| `Highlight.BlockRenderersAgree` | src/main.ts:84-90 | for a loaded lower-case language, the card renderer and the standalone page produce the same block |
| `Highlight.BlockRenderersDifferOnUnloaded` | src/markdown.ts:265-267 | for an unloaded language, the card renderer asks for `text` while the standalone page asks for the language itself |
| `Highlight.InlineRenderersCompared` | src/markdown.ts:152-154 | for a loaded lower-case language the two inline renderers agree; an unloaded language is escaped by the card renderer |
| `Preload.LanguageRequestsMembers` | src/markdown.ts:221-230 | a name is requested exactly when it is configured, is not a plain-text name in any case, and is available in some letter case |
| `Preload.LanguageRequestsInOrder` | src/markdown.ts:222-229 | the requests keep the configured order |
| `Preload.NoAvailableNoRequests` | src/markdown.ts:225-231 | an empty available list requests nothing |
| `Preload.TextNamesNotRequested` | src/markdown.ts:27-31 | `text`, `txt`, `plain` and `plaintext`, in any case, are never requested |
| `Preload.ThemeRequests` | src/markdown.ts:247 | one theme module when light and dark agree, otherwise light then dark |
| `Preload.LoadedGrammarsConcat` | src/markdown.ts:239-243 | the kept grammars of two runs of loads are the concatenation of each run's |
| `Preload.LoadedGrammarsDropFailed` | src/markdown.ts:239-243 | a failed load contributes nothing, and the other loads keep their order |
| `Preload.LoadedGrammarsFromLoads` | src/markdown.ts:239-240 | every kept grammar comes from a fulfilled load |
| `Preload.LoadedThemes` | src/markdown.ts:252-256 | at most one theme per load, each from a fulfilled load |
| `Preload.LoadedThemesAllFulfilled` | src/markdown.ts:252-253 | when every load succeeds, the themes are the loaded values in order |
| `Preload.LoadedThemesAllRejected` | src/markdown.ts:252-255 | when every load fails, no theme is kept |
| `Preload.LoadedThemesConcat` | src/markdown.ts:252-256 | the themes of two runs of loads are those of each, in order |
| `Preload.LoadedThemesDropFailed` | src/markdown.ts:252-256 | a failed load contributes nothing and disturbs nothing around it |
| `Preload.LoadedThemesKeepFulfilled` | src/markdown.ts:252-253 | a fulfilled load contributes its theme in its place |
| `Preload.ModulePathIsStoreFile` | src/markdown.ts:235-249 | the language and theme paths the card imports are the asset base followed by the file names the add-on writes; a language path is never a theme path, and different languages give different paths |
| `CodeBlockClicks.Toggle` | src/markdown.ts:193-194 | toggling flips `revealed` and sets the label to agree with it |
| `CodeBlockClicks.AfterClick` | src/markdown.ts:191-204 | a click flips `revealed` only on the toggle button, and the copy label becomes `Copied` only when the clipboard exists |
| `CodeBlockClicks.ToggleLabelIffRevealed` | src/markdown.ts:193-194 | after a toggle the label is `Hide` exactly when the block is revealed |
| `CodeBlockClicks.ToggleTwiceRestores` | src/markdown.ts:193-194 | two toggles restore the block |
| `CodeBlockClicks.RenderedAgrees` | src/markdown.ts:333 | a freshly rendered block, hidden with the label `Reveal`, is consistent |
| `CodeBlockClicks.AfterClickKeepsAgreement` | src/markdown.ts:186-205 | every click keeps the label consistent with `revealed` |
| `CodeBlockClicks.DoubleBindingCancelsToggle` | src/markdown.ts:179-180 | two listeners on one root would cancel each other's toggle, which the bound-roots set prevents |
| `CodeBlockClicks.CopiedText` | src/markdown.ts:199 | the copied text is the code's text, or empty when there is no `<code>` |
| `CodeBlockClicks.RunOnBlock` | src/markdown.ts:191-204 | the block's new state is the click's effect; it writes the code text only when the clipboard exists, and otherwise the copy throws |
| `CodeBlockClicks.HandleClick` | src/markdown.ts:186-205 | clicks outside every block, or on a block outside the root, change nothing; other clicks act on the block |
| `CodeBlockClicks.HandleClickMain` | src/main.ts:138-154 | the standalone page acts on every block it finds, with no root containment test |
| `Hast.ClassListOfList` | src/markdown.ts:302 | the class list keeps the non-empty classes in order |
| `Hast.ToolbarText` | src/markdown.ts:313-344 | the toolbar reads the language, `Reveal`, `Copy`, and holds the toggle and the copy buttons in that order |
| `Hast.ElementNode.CodeBlockPre` | src/markdown.ts:298-350 | the node becomes a `figure` with class `code-block` plus the old classes and the old style; its children are the old element with empty properties, then the toolbar |
| `Hast.ElementNode.CodeInlinePre` | src/markdown.ts:352-363 | the node becomes `code` with class `code-inline` plus the old classes, and an inner `code` element is flattened |
| `Hast.InlineChildren` | src/markdown.ts:358-361 | an inner `code` element's children are lifted; any other first child leaves the children unchanged |
| `Hast.InlineKeepsText` | src/markdown.ts:358-361 | flattening the inner `code` keeps the text |
| `Renderer.MarkdownRenderer.constructor` | src/markdown.ts:117-120 | the config is the normalised option, and there is no highlighter and no bound root yet |
| `Renderer.MarkdownRenderer.FinishInit` | src/markdown.ts:287-295 | a created highlighter is installed; a failed creation leaves none |
| `Renderer.MarkdownRenderer.Attach` | src/markdown.ts:178-185 | a root is bound once; a second attach adds no listener; the clipboard class is added when the clipboard exists |
| `Renderer.MarkdownRenderer.AttachTwice` | src/markdown.ts:178-180 | attaching twice leaves exactly one new listener |
| `Renderer.MarkdownRenderer.HighlightBlock` | src/markdown.ts:259-262 | the renderer's highlighting before initialisation is the escaped plain block |
| `MainPage.Render` | src/main.ts:156-161 | each present element gets the rendered side; when one element is both, the back side wins |
| `ShikiText.IsAliasModule` | anki_markdown/shiki.py:65-74 | a module of 200 characters or more is no alias; a shorter one names the first `.mjs` import it holds |
| `ShikiText.SearchImport` | anki_markdown/shiki.py:71-73 | the search finds nothing exactly when no import starts anywhere; a found name is the group of some match |
| `ShikiText.FirstImport` | anki_markdown/shiki.py:71 | the search returns the first position where an import starts |
| `ShikiText.LangDeps` | anki_markdown/shiki.py:77-79 | every found dependency is non-empty and free of quotes and dots |
| `ShikiText.RewriteIdentity` | anki_markdown/shiki.py:82-87 | text without an import is not changed and has no dependency |
| `ShikiText.NoImportAfterRewrite` | anki_markdown/shiki.py:82-87 | no `.mjs` import is left after the rewrite |
| `ShikiText.LocalOfRewrite` | anki_markdown/shiki.py:82-87 | the local imports of the rewritten module are exactly the dependencies of the original, in order |
| `ShikiText.EsmUrlRecovered` | tests/conftest.py:31-36 | the offline fetch's regex recovers the package and the module name from every esm.sh URL |
| `ShikiText.BashStubIsAlias` | anki_markdown/shiki.py:65-74 | the short `bash` module that re-exports `shellscript` is an alias for it |
| `ShikiText.LongModuleIsNoAlias` | anki_markdown/shiki.py:70 | a module of 200 characters or more is never an alias |
| `ShikiFiles.LangFileRoundTrip` | anki_markdown/shiki.py:160 | the grammar file name and the name read back from it are inverse |
| `ShikiFiles.ThemeFileRoundTrip` | anki_markdown/shiki.py:164 | the theme file name and the name read back from it are inverse |
| `ShikiFiles.LangAndThemeFilesDiffer` | anki_markdown/shiki.py:158-164 | no file is both a grammar and a theme |
| `ShikiFiles.LocalLangsExact` | anki_markdown/shiki.py:158-160 | a language is local exactly when its grammar file exists |
| `ShikiFiles.LocalThemesExact` | anki_markdown/shiki.py:162-164 | a theme is local exactly when its theme file exists |
| `ShikiFiles.ClosedNotStale` | anki_markdown/shiki.py:135-156 | a name in a set of present, rewritten grammars closed under local imports does not need a download |
| `ShikiFiles.NotStaleClosed` | anki_markdown/shiki.py:135-156 | a name that needs no download lies in such a closed set |
| `ShikiFiles.MissingDepStale` | anki_markdown/shiki.py:146-148 | a missing dependency's file makes its importer stale |
| `ShikiFiles.BadIsStale` | anki_markdown/shiki.py:146-152 | a missing grammar, or one that still has a `.mjs` import, is stale |
| `ShikiFiles.StaleUpward` | anki_markdown/shiki.py:154 | a stale dependency makes every importer stale |
| `ShikiFiles.WalkFound` | anki_markdown/shiki.py:140-152 | the walk that returns true has found a reason to download |
| `ShikiFiles.WalkDone` | anki_markdown/shiki.py:140-156 | the walk that empties its stack has proved the grammar intact |
| `ShikiDownload.Canonical` | anki_markdown/shiki.py:115-119 | a module text is found only when the name's own module was fetched, and it is one of the fetched modules |
| `ShikiDownload.DownloadEffect` | anki_markdown/shiki.py:107-128 | a download writes exactly the rewritten canonical text of each newly seen name, logs them once, and when it succeeds it has seen every dependency |
| `ShikiDownload.DownloadIntact` | anki_markdown/shiki.py:107-128 | after a successful download the grammar and all it imports are present and rewritten |
| `ShikiDownload.ParentKeptOnFailure` | anki_markdown/shiki.py:125-128 | the parent's file is written before its dependencies, so it stays when one of them fails |
| `ShikiDownload.DownloadFailureLeavesStale` | anki_markdown/shiki.py:107-128 | a download that fails leaves the grammar stale, so the next sync retries it |
| `ShikiSync.DoomedExact` | anki_markdown/shiki.py:174-192 | cleanup removes a grammar exactly when it is neither configured nor imported by a present grammar, a theme exactly when it is neither light nor dark, and nothing else |
| `ShikiSync.OrphanSurvivesOnce` | anki_markdown/shiki.py:177 | a dependency kept only by an unused grammar survives the first cleanup and goes in the second |
| `ShikiSync.SyncReportsStale` | anki_markdown/shiki.py:202-208 | every configured language that is stale when its turn comes is downloaded or reported |
| `ShikiSync.SyncIntact` | anki_markdown/shiki.py:194-218 | a sync without errors leaves every configured grammar intact and both theme files present |
| `ShikiSync.SecondSyncIdle` | anki_markdown/shiki.py:194-218 | a sync right after an error-free sync downloads nothing and reports nothing |
| `ShikiSync.SameThemeFetchedOnce` | anki_markdown/shiki.py:210-216 | with equal light and dark themes the theme is fetched once, or reported twice when the fetch fails |
| `ShikiSync.SyncRetriesFailedLanguage` | anki_markdown/shiki.py:202-208 | a language whose download failed stays stale, and the next sync tries it again |
| `ShikiAssets.ShikiStore.constructor` | anki_markdown/shiki.py:103-105 | the store holds the given files and version |
| `ShikiAssets.ShikiStore.DownloadLang` | anki_markdown/shiki.py:107-128 | the recursive method leaves the files, the seen set and the outcome of the download function |
| `ShikiAssets.ShikiStore.DownloadDeps` | anki_markdown/shiki.py:127-128 | the loop over the dependencies leaves the files, the seen set and the outcome of the function for a run of downloads that stops at the first failure |
| `ShikiAssets.ShikiStore.DownloadTheme` | anki_markdown/shiki.py:130-133 | the theme file holds the raw module when the fetch succeeds; otherwise nothing changes |
| `ShikiAssets.ShikiStore.NeedsRedownload` | anki_markdown/shiki.py:135-156 | the stack walk answers true exactly when the grammar is stale |
| `ShikiAssets.ShikiStore.CollectDeps` | anki_markdown/shiki.py:166-172 | the result is every local import of every grammar file |
| `ShikiAssets.ShikiStore.RemoveGrammars` | anki_markdown/shiki.py:180-184 | exactly the grammar files whose names are not kept are removed and listed once each |
| `ShikiAssets.ShikiStore.RemoveThemes` | anki_markdown/shiki.py:186-190 | exactly the theme files other than light and dark are removed and listed once each |
| `ShikiAssets.ShikiStore.Cleanup` | anki_markdown/shiki.py:174-192 | the files lose exactly the doomed ones, and each is listed once, grammars before themes |
| `ShikiAssets.ShikiStore.Sync` | anki_markdown/shiki.py:194-218 | the files, the downloads and the errors are those of the sync specification |
| `ShikiConfig.Get` | anki_markdown/shiki.py:232 | a key is found exactly when some entry has it |
| `ShikiConfig.GetLastEntry` | anki_markdown/shiki.py:232 | the value found is that of the last entry with the key, as in the dict `json.loads` builds |
| `ShikiConfig.Keys` | anki_markdown/shiki.py:31 | iterating a dict gives each key once, and exactly the keys of its entries |
| `ShikiConfig.ThemeOr` | anki_markdown/shiki.py:247-256 | a theme is the default or an available theme |
| `ShikiConfig.NormalizeConfig` | anki_markdown/shiki.py:227-262 | the languages are the cleaned list, or the defaults when it is empty; each theme is the configured available string or the default; `cardless` is the truth of the entry |
| `ShikiConfig.CandidatesSound` | anki_markdown/shiki.py:236-243 | every kept language is a stripped, available, unseen string from the list |
| `ShikiConfig.CandidatesComplete` | anki_markdown/shiki.py:236-243 | every string whose stripped form is available is kept |
| `ShikiConfig.CleanLanguagesSound` | anki_markdown/shiki.py:236-243 | the kept languages are available, stripped and distinct |
| `ShikiConfig.NormalizedIsNormal` | anki_markdown/shiki.py:227-262 | normalising with sane defaults gives a sane config |
| `ShikiConfig.NormalizeIdempotent` | anki_markdown/shiki.py:227-262 | a sane config passes through normalisation unchanged |
| `ShikiConfig.SanitisedIsStable` | anki_markdown/shiki.py:227-262 | normalising a normalised config gives it back |
| `ShikiConfig.Iterate` | anki_markdown/shiki.py:31 | iterating a list yields its items; a number, a boolean or null cannot be iterated |
| `ShikiConfig.AvailableStrings` | anki_markdown/shiki.py:29-33 | the default languages are the available strings of the list |
| `ShikiConfig.LoadDefaultConfig` | anki_markdown/shiki.py:22-48 | it raises exactly when the parsed file is not a dict, its `languages` value cannot be iterated, or there is no available theme; the languages are the available strings of that value (none when it is missing); `cardless` is the truthiness of the entry, false when missing; the themes are available and the dark one is the configured one or the light one |
| `ShikiConfig.MissingConfigDefaults` | anki_markdown/shiki.py:24-27 | a missing or unreadable config gives no languages, the first theme for both sides, and `cardless` false |
| `ShikiConfig.DefaultThemeFallbacks` | anki_markdown/shiki.py:39-42 | an unavailable light theme falls back to the first theme, and an unavailable dark theme to the light one |
| `ShikiConfig.StringLanguagesAreLetters` | anki_markdown/shiki.py:31-32 | a string in place of the list is iterated character by character |
| `LanguageCatalogue.AllLanguages` | scripts/prepare.ts:11-19 | the set holds each id and alias exactly once |
| `LanguageCatalogue.LanguageNames` | scripts/generate.ts:19-28 | the sorted names are exactly the ids and aliases, in strictly increasing order |
| `LanguageCatalogue.BeforeTotal` | scripts/prepare.ts:20 | any two different names are ordered one way |
| `LanguageCatalogue.BeforeTransitive` | scripts/prepare.ts:20 | the string order is transitive |
| `LanguageCatalogue.Sort` | scripts/prepare.ts:20 | the sort returns a sorted permutation |
| `LanguageCatalogue.ThemeNames` | scripts/prepare.ts:23 | the theme names are the theme ids, sorted |
| `LanguageCatalogue.Validate` | scripts/prepare.ts:29-43 | the defaults pass exactly when every language and both themes are known; otherwise the first unknown language is reported, or else the light theme before the dark |
| `LanguageCatalogue.ShikiVersion` | scripts/generate.ts:11-17 | a truthy `shiki` entry wins, then a truthy `@shikijs/core`; no version exactly when both are missing or empty |
| `PyList.FormatPyList` | scripts/prepare.ts:46-60 | the loop produces the wrapped lines of the specification; no items give the empty text and any item gives a non-empty text |
| `PyList.WrapKeepsItems` | scripts/generate.ts:53-61 | the lines hold every item once, in order |
| `PyList.WrapShape` | scripts/prepare.ts:49-56 | only the first line can be empty, and only when the first item alone is too wide |
| `PyList.WrapOnlyWhenNeeded` | scripts/prepare.ts:51 | a line is closed only when the next item would not fit |
| `PyList.WrapFits` | scripts/prepare.ts:51-55 | a line of two or more items fits the width |
| `PyList.LineShapes` | scripts/prepare.ts:52-57 | a closed line is the quoted items joined by `, ` with a trailing comma; the last line has none |
| `PyList.OutputLines` | scripts/prepare.ts:46-60 | each output line is the indent, then the quoted group, then a comma on every line but the last |
| `PyList.ShortItemsFit` | scripts/prepare.ts:51-59 | when every item fits, each output line is longer than the indent and at most 80 columns |
| `PyList.LongFirstItem` | scripts/prepare.ts:51-52 | a first item too wide for a line makes the first output line blank |

## Left out

- Shiki itself is a parameter and is not modelled. That covers
  `createHighlighterCore`, `codeToHtml`, the four meta and notation
  transformers, the JavaScript regex engine and the grammars.
- markdown-it's tokenizer is a parameter, and so are its plugins
  (`mark`, `alerts`) and `escapeHtml`.
- JSON parsing is left out.
- The promise machinery is left out. `initHighlighter`'s `Promise.all`,
  `render`'s `await` and the console messages are not modelled, and
  nothing says in which order the highlighter becomes ready.
- `readConfig` is left out: it reads the DOM and globals, and falls back
  to the defaults on any error.
- Of `decodeField`, only the `<br>` step is modelled. The `textarea`
  entity decoding is browser behaviour.
- The DOM is left out. So are `closest`, `contains`, the clipboard's
  promise and the 1500 ms timer that restores the `Copy` label. A click
  is a datatype naming its block and buttons.
- InlineCode.InlineCodeLangRule: it requires the block tokens to be
  distinct objects, as in the token stream markdown-it builds; a token
  listed twice would be tagged twice.
- Network and disk I/O are left out. `fetch_module` is a map from URL to
  text, and the store directory is a map. Timeouts, TLS and UTF-8
  decoding failures are not modelled.
- ShikiAssets.ShikiStore.Sync: errors are the `SyncError` datatype,
  not the formatted message with the exception text.
- The add-on glue after `_normalize_config` is left out, because it
  calls into Anki. That covers `get_config`, the web-export hooks and
  `generate_config_json`.
- The scripts' file writing is left out: the marker-regex replacement
  inside `shiki.py`, `shiki-data.json`, `config.json` and the `rmSync`
  cleanup. So are `process.exit` and `console.error`. Their outcome is
  the `Verdict` datatype.
- LanguageCatalogue.Sort: names are compared character by character,
  which equals JavaScript's UTF-16 order for names outside the
  supplementary planes. Shiki's names are ASCII.
- Case folding is ASCII only: `toLowerCase` and the `/i` flag on other
  letters are not modelled.
- String lengths count characters, not UTF-16 code units. This matters
  only for `formatPyList`'s width test, and only for text outside the
  Basic Multilingual Plane. Python's `len`, as in `is_alias_module`,
  counts characters too.
- PyList.OutputLines: it is stated for items without a newline, since
  a newline inside an item would split an output line. The same holds
  for PyList.ShortItemsFit and PyList.LongFirstItem.
- ShikiDownload.DownloadFailureLeavesStale: it is stated for a store
  with no grammar files yet. Grammars already present could hide the
  failure behind an intact older copy.
- ShikiSync.SyncRetriesFailedLanguage: it is stated for a configuration
  of one language and a store with no grammar files yet.
- `MarkdownRenderer.render` and `initHighlighter` are asynchronous glue
  over foreign code. Their effects are `FinishInit` and the rendering
  functions above.
- The standalone page's `createHighlighter` with `bundledLanguages` is
  left out. Its highlighter is a parameter that holds every language.
