/** Which language and theme modules the card renderer asks for, and what
    it keeps of the answers (`loadLanguages` and `loadThemes` of
    src/markdown.ts). The module loading itself is a given sequence of
    outcomes, one per request, in request order. */
module Preload {
  import opened Common
  import opened MarkdownConfig
  import ShikiFiles

  /** Some name of `available` equals `name` case-insensitively. */
  predicate AvailableIgnoringCase(name: string, available: seq<string>) {
    Lower(name) in (set a | a in available :: Lower(a))
  }

  /** The language modules `loadLanguages` imports, in order. */
  function LanguageRequests(config: Config): (r: seq<string>)
  {
    var names := Filter(config.languages, (n: string) => !IsBuiltinTextLanguage(n));
    Filter(names, (n: string) => AvailableIgnoringCase(n, config.availableLanguages))
  }

  /** A name is requested exactly when it is configured, is not one of the
      plain-text names in any letter case, and appears among the available
      languages in some letter case. */
  lemma LanguageRequestsMembers(config: Config, x: string)
    ensures x in LanguageRequests(config)
        <==> x in config.languages && !IsBuiltinTextLanguage(x)
             && AvailableIgnoringCase(x, config.availableLanguages)
  {
    var names := Filter(config.languages, (n: string) => !IsBuiltinTextLanguage(n));
    if x in config.languages && !IsBuiltinTextLanguage(x) {
      var i :| 0 <= i < |config.languages| && config.languages[i] == x;
      assert x in names;
      if AvailableIgnoringCase(x, config.availableLanguages) {
        var j :| 0 <= j < |names| && names[j] == x;
      }
    }
    if x in LanguageRequests(config) {
      var j :| 0 <= j < |LanguageRequests(config)| && LanguageRequests(config)[j] == x;
    }
  }

  /** Requests keep the configured order. */
  lemma LanguageRequestsInOrder(config: Config)
    ensures IsSubsequence(LanguageRequests(config), config.languages)
  {
    var names := Filter(config.languages, (n: string) => !IsBuiltinTextLanguage(n));
    FilterIsSubsequence(config.languages, (n: string) => !IsBuiltinTextLanguage(n));
    FilterIsSubsequence(names, (n: string) => AvailableIgnoringCase(n, config.availableLanguages));
    SubsequenceTrans(LanguageRequests(config), names, config.languages);
  }

  /** With no available languages nothing is imported. */
  lemma NoAvailableNoRequests(config: Config)
    requires config.availableLanguages == []
    ensures LanguageRequests(config) == []
  {
    if LanguageRequests(config) != [] {
      LanguageRequestsMembers(config, LanguageRequests(config)[0]);
    }
  }

  /** The plain-text names are never imported, in any letter case. */
  lemma TextNamesNotRequested(config: Config, x: string)
    requires Lower(x) in BuiltinTextLanguages
    ensures x !in LanguageRequests(config)
  {
    LanguageRequestsMembers(config, x);
  }

  /** The module path of a language or a theme under the asset base. */
  function ModulePath(assetBase: string, theme: bool, name: string): string {
    assetBase + (if theme then "_theme-" else "_lang-") + name + ".js"
  }

  /** The card imports exactly the files the add-on writes to the media
      folder: a language and a theme path never coincide, and different
      names give different paths. */
  lemma ModulePathIsStoreFile(assetBase: string, a: string, b: string)
    ensures ModulePath(assetBase, false, a) == assetBase + ShikiFiles.LangFile(a)
    ensures ModulePath(assetBase, true, a) == assetBase + ShikiFiles.ThemeFile(a)
    ensures ModulePath(assetBase, true, a) != ModulePath(assetBase, false, b)
    ensures ModulePath(assetBase, false, a) == ModulePath(assetBase, false, b) ==> a == b
  {
    var n := |assetBase|;
    assert ModulePath(assetBase, true, a)[n + 1] == 't';
    assert ModulePath(assetBase, false, b)[n + 1] == 'l';
    if ModulePath(assetBase, false, a) == ModulePath(assetBase, false, b) {
      assert ModulePath(assetBase, false, a)[n..] == ShikiFiles.LangFile(a);
      assert ModulePath(assetBase, false, b)[n..] == ShikiFiles.LangFile(b);
      ShikiFiles.LangFileInjective(a, b);
    }
  }

  /** `[...new Set([light, dark])]`. */
  function ThemeRequests(themes: Themes): (r: seq<string>)
    ensures r == if themes.light == themes.dark then [themes.light] else [themes.light, themes.dark]
  {
    var pair := [themes.light, themes.dark];
    assert pair[..1] == [themes.light];
    assert [themes.light][..0] == [];
    assert Dedup([themes.light]) == [themes.light];
    Dedup(pair)
  }

  /** One settled import of a language module: its default export, which is
      one grammar or a list of them, or a rejection. */
  datatype LanguageLoad<G> = Grammars(grammars: seq<G>) | LanguageFailed

  /** `results.flatMap(...)`: the grammars of the fulfilled imports, in
      request order, with each export flattened one level. */
  function LoadedGrammars<G>(loads: seq<LanguageLoad<G>>): (r: seq<G>)
  {
    if loads == [] then []
    else (match loads[0] case Grammars(g) => g case LanguageFailed => []) + LoadedGrammars(loads[1..])
  }

  lemma {:induction false} LoadedGrammarsConcat<G>(a: seq<LanguageLoad<G>>, b: seq<LanguageLoad<G>>)
    ensures LoadedGrammars(a + b) == LoadedGrammars(a) + LoadedGrammars(b)
  {
    if a != [] {
      assert (a + b)[1..] == a[1..] + b;
      LoadedGrammarsConcat(a[1..], b);
    } else {
      assert a + b == b;
    }
  }

  /** A failed import contributes nothing and disturbs nothing around it. */
  lemma LoadedGrammarsDropFailed<G>(a: seq<LanguageLoad<G>>, b: seq<LanguageLoad<G>>)
    ensures LoadedGrammars(a + [LanguageFailed] + b) == LoadedGrammars(a + b)
  {
    LoadedGrammarsConcat(a + [LanguageFailed], b);
    LoadedGrammarsConcat(a, [LanguageFailed]);
    LoadedGrammarsConcat(a, b);
    var f: seq<LanguageLoad<G>> := [LanguageFailed];
    assert f[1..] == [];
  }

  /** Every grammar kept comes from a fulfilled import. */
  lemma {:induction false} LoadedGrammarsFromLoads<G>(loads: seq<LanguageLoad<G>>, g: G)
    requires g in LoadedGrammars(loads)
    ensures exists i :: 0 <= i < |loads| && loads[i].Grammars? && g in loads[i].grammars
  {
    var head := match loads[0] case Grammars(x) => x case LanguageFailed => [];
    if g in head {
      assert loads[0].Grammars? && g in loads[0].grammars;
    } else {
      LoadedGrammarsFromLoads(loads[1..], g);
      var i :| 0 <= i < |loads[1..]| && loads[1..][i].Grammars? && g in loads[1..][i].grammars;
      assert loads[i + 1] == loads[1..][i];
    }
  }

  /** `results.flatMap(...)` for themes: the fulfilled exports, in request
      order (`None` is a rejected import). */
  function LoadedThemes<T>(loads: seq<Option<T>>): (r: seq<T>)
    ensures |r| <= |loads|
    ensures forall i :: 0 <= i < |r| ==> Some(r[i]) in loads
  {
    if loads == [] then []
    else (match loads[0] case Some(t) => [t] case None => []) + LoadedThemes(loads[1..])
  }

  lemma {:induction false} LoadedThemesConcat<T>(a: seq<Option<T>>, b: seq<Option<T>>)
    ensures LoadedThemes(a + b) == LoadedThemes(a) + LoadedThemes(b)
  {
    if a != [] {
      var head := match a[0] case Some(t) => [t] case None => [];
      assert (a + b)[0] == a[0];
      assert (a + b)[1..] == a[1..] + b;
      LoadedThemesConcat(a[1..], b);
      AppendAssoc(head, LoadedThemes(a[1..]), LoadedThemes(b));
    } else {
      assert a + b == b;
    }
  }

  /** A rejected import contributes nothing and disturbs nothing around it. */
  lemma LoadedThemesDropFailed<T>(a: seq<Option<T>>, b: seq<Option<T>>)
    ensures LoadedThemes(a + [None] + b) == LoadedThemes(a + b)
  {
    LoadedThemesConcat(a + [None], b);
    LoadedThemesConcat(a, [None]);
    LoadedThemesConcat(a, b);
    var f: seq<Option<T>> := [None];
    assert f[1..] == [];
  }

  /** A fulfilled import contributes its theme, in its place. */
  lemma LoadedThemesKeepFulfilled<T>(a: seq<Option<T>>, t: T, b: seq<Option<T>>)
    ensures LoadedThemes(a + [Some(t)] + b) == LoadedThemes(a) + [t] + LoadedThemes(b)
  {
    LoadedThemesConcat(a + [Some(t)], b);
    LoadedThemesConcat(a, [Some(t)]);
    var f: seq<Option<T>> := [Some(t)];
    assert f[1..] == [];
  }

  /** When every import succeeds, every theme is kept in request order. */
  lemma {:induction false} LoadedThemesAllFulfilled<T>(loads: seq<Option<T>>)
    requires forall i :: 0 <= i < |loads| ==> loads[i].Some?
    ensures |LoadedThemes(loads)| == |loads|
    ensures forall i :: 0 <= i < |loads| ==> LoadedThemes(loads)[i] == loads[i].value
  {
    if loads != [] {
      LoadedThemesAllFulfilled(loads[1..]);
    }
  }

  /** When every import fails, no theme is kept. */
  lemma {:induction false} LoadedThemesAllRejected<T>(loads: seq<Option<T>>)
    requires forall i :: 0 <= i < |loads| ==> loads[i].None?
    ensures LoadedThemes(loads) == []
  {
    if loads != [] {
      LoadedThemesAllRejected(loads[1..]);
    }
  }
}
