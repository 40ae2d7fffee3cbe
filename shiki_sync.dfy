/** What `ShikiStore.cleanup` and `ShikiStore.sync` (anki_markdown/shiki.py)
    do to the asset directory, as functions of the directory before the
    call, and what follows from them: which files a cleanup removes, that a
    sync reports every stale language, that a sync without errors leaves an
    intact store on which a second sync does nothing, and that a language
    whose download failed is downloaded again. */
module ShikiSync {
  import opened Common
  import opened ShikiText
  import opened ShikiFiles
  import opened ShikiDownload

  /** The part of the (normalised) add-on config that the store reads. */
  datatype StoreConfig = StoreConfig(languages: seq<string>, light: string, dark: string)

  // ---------------------------------------------------------------------
  // cleanup
  // ---------------------------------------------------------------------

  /** `collect_deps`: the local imports of every grammar file. */
  function LangFileDeps(files: map<string, string>): (r: set<string>) {
    set k, d | k in files && IsLangFile(k) && d in LocalDeps(files[k]) :: d
  }

  /** The local imports of the grammar files among `keys`. */
  function DepsOf(files: map<string, string>, keys: set<string>): (r: set<string>) {
    set k, d | k in keys && k in files && IsLangFile(k) && d in LocalDeps(files[k]) :: d
  }

  lemma DepsOfAdd(files: map<string, string>, keys: set<string>, k: string)
    requires k in files && IsLangFile(k)
    ensures DepsOf(files, keys + {k}) == DepsOf(files, keys) + (set d | d in LocalDeps(files[k]))
  {
    forall d | d in DepsOf(files, keys + {k})
      ensures d in DepsOf(files, keys) + (set d | d in LocalDeps(files[k]))
    {
      var j :| j in keys + {k} && j in files && IsLangFile(j) && d in LocalDeps(files[j]);
      if j != k {
        assert j in keys;
      }
    }
  }

  lemma DepsOfAll(files: map<string, string>)
    ensures DepsOf(files, set k | k in files && IsLangFile(k)) == LangFileDeps(files)
  {
  }

  /** No theme file is removed before a grammar file. */
  predicate GrammarsFirst(removed: seq<string>) {
    forall i, j :: 0 <= i < j < |removed| ==> !(IsThemeFile(removed[i]) && IsLangFile(removed[j]))
  }

  /** The grammars a cleanup keeps: configured or imported by a grammar. */
  function Keep(config: StoreConfig, files: map<string, string>): (r: set<string>) {
    (set l | l in config.languages) + LangFileDeps(files)
  }

  /** The files a cleanup removes. */
  function Doomed(config: StoreConfig, files: map<string, string>): (r: set<string>) {
    set k | k in files
      && ((IsLangFile(k) && LangName(k) !in Keep(config, files))
          || (IsThemeFile(k) && ThemeName(k) != config.light && ThemeName(k) != config.dark))
  }

  /** A cleanup removes the grammar of a name exactly when the name is
      neither configured nor imported by any grammar, the theme file of a
      name exactly when it is neither the light nor the dark theme, and no
      other file. */
  lemma DoomedExact(config: StoreConfig, files: map<string, string>, n: string, k: string)
    ensures LangFile(n) in Doomed(config, files)
        <==> LangFile(n) in files && n !in config.languages && n !in LangFileDeps(files)
    ensures ThemeFile(n) in Doomed(config, files)
        <==> ThemeFile(n) in files && n != config.light && n != config.dark
    ensures k in Doomed(config, files) ==> k in files && (IsLangFile(k) || IsThemeFile(k))
  {
    LangFileRoundTrip(n, "");
    ThemeFileRoundTrip(n, "");
    LangAndThemeFilesDiffer(LangFile(n));
    LangAndThemeFilesDiffer(ThemeFile(n));
  }

  /** Cleanup reads the imports of the directory as it was when the call
      began: a grammar imported only by a grammar that goes in this round
      survives it and goes in the next. */
  lemma OrphanSurvivesOnce(config: StoreConfig, files: map<string, string>, parent: string, dep: string)
    requires LangFile(parent) in files && LangFile(dep) in files
    requires dep in LocalDeps(files[LangFile(parent)])
    requires parent !in config.languages && parent !in LangFileDeps(files)
    requires dep !in config.languages
    requires forall k :: k in files && IsLangFile(k) && dep in LocalDeps(files[k]) ==> k == LangFile(parent)
    ensures LangFile(parent) in Doomed(config, files)
    ensures LangFile(dep) !in Doomed(config, files)
    ensures LangFile(dep) in Doomed(config, files - Doomed(config, files))
  {
    LangFileRoundTrip(parent, "");
    assert dep in LangFileDeps(files);
    DoomedExact(config, files, parent, "");
    DoomedExact(config, files, dep, "");
    var after := files - Doomed(config, files);
    assert dep !in LangFileDeps(after) by {
      forall k | k in after && IsLangFile(k) ensures dep !in LocalDeps(after[k]) {
        assert k != LangFile(parent);
      }
    }
    DoomedExact(config, after, dep, "");
  }

  // ---------------------------------------------------------------------
  // sync
  // ---------------------------------------------------------------------

  /** An entry of the `errors` list; the exception text is not modelled. */
  datatype SyncError = LangError(lang: string) | ThemeError(theme: string)

  /** The directory and the `(downloaded, errors)` lists so far. */
  datatype Outcome = Outcome(files: map<string, string>, downloaded: seq<string>, errors: seq<SyncError>)

  /** One language of the first loop: downloaded from an empty `_seen` when
      `needs_redownload` says so. */
  ghost function LangStep(fetch: map<string, string>, version: string, lang: string, o: Outcome): (r: Outcome)
    ensures o.downloaded <= r.downloaded && o.errors <= r.errors
  {
    if !Stale(o.files, lang) then o
    else
      var d := Download(fetch, version, lang, {}, o.files);
      if d.ok then Outcome(d.files, o.downloaded + [LangFile(lang)], o.errors)
      else Outcome(d.files, o.downloaded, o.errors + [LangError(lang)])
  }

  ghost function SyncLangs(fetch: map<string, string>, version: string, langs: seq<string>, o: Outcome): (r: Outcome)
    ensures o.downloaded <= r.downloaded && o.errors <= r.errors
    decreases |langs|
  {
    if langs == [] then o
    else SyncLangs(fetch, version, langs[1..], LangStep(fetch, version, langs[0], o))
  }

  /** One theme of the second loop: fetched when its file is missing, and
      written as fetched. */
  function ThemeStep(fetch: map<string, string>, version: string, theme: string, o: Outcome): (r: Outcome)
    ensures o.downloaded <= r.downloaded && o.errors <= r.errors
  {
    if ThemeFile(theme) in o.files then o
    else if ThemeUrl(version, theme) in fetch then
      Outcome(o.files[ThemeFile(theme) := fetch[ThemeUrl(version, theme)]], o.downloaded + [ThemeFile(theme)], o.errors)
    else Outcome(o.files, o.downloaded, o.errors + [ThemeError(theme)])
  }

  function SyncThemes(fetch: map<string, string>, version: string, themes: seq<string>, o: Outcome): (r: Outcome)
    ensures o.downloaded <= r.downloaded && o.errors <= r.errors
    decreases |themes|
  {
    if themes == [] then o
    else SyncThemes(fetch, version, themes[1..], ThemeStep(fetch, version, themes[0], o))
  }

  /** `sync(config)`. */
  ghost function SyncSpec(fetch: map<string, string>, version: string, config: StoreConfig,
                          files: map<string, string>): (r: Outcome)
  {
    var o := SyncLangs(fetch, version, config.languages, Outcome(files, [], []));
    SyncThemes(fetch, version, [config.light, config.dark], o)
  }

  // ---------------------------------------------------------------------
  // Every stale language is reported
  // ---------------------------------------------------------------------

  lemma {:induction false} SyncLangsSplit(fetch: map<string, string>, version: string, langs: seq<string>,
                                          o: Outcome, i: nat)
    requires i <= |langs|
    ensures SyncLangs(fetch, version, langs, o)
         == SyncLangs(fetch, version, langs[i..], SyncLangs(fetch, version, langs[..i], o))
    decreases i
  {
    if i > 0 {
      var o1 := LangStep(fetch, version, langs[0], o);
      SyncLangsSplit(fetch, version, langs[1..], o1, i - 1);
      assert langs[1..][i - 1..] == langs[i..];
      assert langs[..i][1..] == langs[1..][..i - 1];
    }
  }

  lemma LangStepReports(fetch: map<string, string>, version: string, lang: string, o: Outcome)
    requires Stale(o.files, lang)
    ensures var r := LangStep(fetch, version, lang, o);
      LangFile(lang) in r.downloaded || LangError(lang) in r.errors
  {
  }

  lemma PrefixKeeps<T>(a: seq<T>, b: seq<T>, x: T)
    requires a <= b && x in a
    ensures x in b
  {
    var i :| 0 <= i < |a| && a[i] == x;
    assert b[i] == x;
  }

  /** The first language of a loop that is stale when reached is reported. */
  lemma SyncLangsReportsFirst(fetch: map<string, string>, version: string, langs: seq<string>, o: Outcome)
    requires langs != [] && Stale(o.files, langs[0])
    ensures var r := SyncLangs(fetch, version, langs, o);
      LangFile(langs[0]) in r.downloaded || LangError(langs[0]) in r.errors
  {
    var step := LangStep(fetch, version, langs[0], o);
    LangStepReports(fetch, version, langs[0], o);
    var r := SyncLangs(fetch, version, langs[1..], step);
    if LangFile(langs[0]) in step.downloaded {
      PrefixKeeps(step.downloaded, r.downloaded, LangFile(langs[0]));
    } else {
      PrefixKeeps(step.errors, r.errors, LangError(langs[0]));
    }
  }

  /** When the loop reaches a language that `needs_redownload` reports,
      the language ends up in `downloaded` or in `errors`. */
  lemma SyncReportsStale(fetch: map<string, string>, version: string, config: StoreConfig,
                         files: map<string, string>, i: nat)
    requires i < |config.languages|
    requires Stale(SyncLangs(fetch, version, config.languages[..i], Outcome(files, [], [])).files, config.languages[i])
    ensures var r := SyncSpec(fetch, version, config, files);
      LangFile(config.languages[i]) in r.downloaded || LangError(config.languages[i]) in r.errors
  {
    var langs := config.languages;
    var l := langs[i];
    var oi := SyncLangs(fetch, version, langs[..i], Outcome(files, [], []));
    var o := SyncLangs(fetch, version, langs, Outcome(files, [], []));
    assert o == SyncLangs(fetch, version, langs[i..], oi) by {
      SyncLangsSplit(fetch, version, langs, Outcome(files, [], []), i);
    }
    assert LangFile(l) in o.downloaded || LangError(l) in o.errors by {
      SyncLangsReportsFirst(fetch, version, langs[i..], oi);
    }
    var r := SyncThemes(fetch, version, [config.light, config.dark], o);
    if LangFile(l) in o.downloaded {
      PrefixKeeps(o.downloaded, r.downloaded, LangFile(l));
    } else {
      PrefixKeeps(o.errors, r.errors, LangError(l));
    }
  }

  // ---------------------------------------------------------------------
  // Theme files never touch grammars
  // ---------------------------------------------------------------------

  /** Two directories with the same grammar files. */
  ghost predicate SameGrammars(f: map<string, string>, g: map<string, string>) {
    forall n :: (LangFile(n) in f <==> LangFile(n) in g) && (LangFile(n) in f ==> f[LangFile(n)] == g[LangFile(n)])
  }

  lemma SameGrammarsStale(f: map<string, string>, g: map<string, string>, name: string)
    requires SameGrammars(f, g)
    ensures Stale(f, name) <==> Stale(g, name)
    ensures forall s :: Closed(f, s) <==> Closed(g, s)
  {
    assert forall n :: Good(f, n) <==> Good(g, n);
    assert forall path :: GoodPath(f, path) <==> GoodPath(g, path);
  }

  lemma ThemeStepSameGrammars(fetch: map<string, string>, version: string, theme: string, o: Outcome)
    ensures SameGrammars(o.files, ThemeStep(fetch, version, theme, o).files)
    ensures ThemeStep(fetch, version, theme, o).errors == o.errors ==> ThemeFile(theme) in ThemeStep(fetch, version, theme, o).files
    ensures forall k :: k in o.files ==> k in ThemeStep(fetch, version, theme, o).files
  {
    forall n ensures LangFile(n) != ThemeFile(theme) {
      LangFileNotTheme(n, theme);
    }
  }

  lemma {:induction false} SyncThemesSameGrammars(fetch: map<string, string>, version: string, themes: seq<string>, o: Outcome)
    ensures SameGrammars(o.files, SyncThemes(fetch, version, themes, o).files)
    ensures SyncThemes(fetch, version, themes, o).errors == o.errors ==>
      forall t :: t in themes ==> ThemeFile(t) in SyncThemes(fetch, version, themes, o).files
    decreases |themes|
  {
    if themes != [] {
      var o1 := ThemeStep(fetch, version, themes[0], o);
      ThemeStepSameGrammars(fetch, version, themes[0], o);
      SyncThemesSameGrammars(fetch, version, themes[1..], o1);
      var r := SyncThemes(fetch, version, themes[1..], o1);
      if r.errors == o.errors {
        assert |o1.errors| == |o.errors|;
        assert ThemeFile(themes[0]) in o1.files;
        SyncThemesKeepFiles(fetch, version, themes[1..], o1, ThemeFile(themes[0]));
        assert forall t :: t in themes ==> t == themes[0] || t in themes[1..];
      }
    }
  }

  lemma {:induction false} SyncThemesKeepFiles(fetch: map<string, string>, version: string, themes: seq<string>,
                                               o: Outcome, k: string)
    requires k in o.files
    ensures k in SyncThemes(fetch, version, themes, o).files
    decreases |themes|
  {
    if themes != [] {
      ThemeStepSameGrammars(fetch, version, themes[0], o);
      SyncThemesKeepFiles(fetch, version, themes[1..], ThemeStep(fetch, version, themes[0], o), k);
    }
  }

  // ---------------------------------------------------------------------
  // A sync without errors leaves an intact store
  // ---------------------------------------------------------------------

  lemma ClosedUnion(files: map<string, string>, s: set<string>, t: set<string>)
    requires Closed(files, s) && Closed(files, t)
    ensures Closed(files, s + t)
  {
  }

  /** One step of the first loop that reports no error keeps a closed
      set closed and puts its language into it. */
  lemma LangStepIntact(fetch: map<string, string>, version: string, lang: string, o: Outcome, s: set<string>)
    returns (s1: set<string>)
    requires CatalogueLocalFree(fetch) && Closed(o.files, s)
    requires LangStep(fetch, version, lang, o).errors == o.errors
    ensures Closed(LangStep(fetch, version, lang, o).files, s1) && lang in s1 && s <= s1
  {
    if !Stale(o.files, lang) {
      NotStaleClosed(o.files, lang);
      var t :| Closed(o.files, t) && lang in t;
      ClosedUnion(o.files, s, t);
      s1 := s + t;
    } else {
      var d := Download(fetch, version, lang, {}, o.files);
      assert |LangStep(fetch, version, lang, o).errors| == |o.errors|;
      assert d.ok;
      DownloadEffect(fetch, version, lang, {}, o.files);
      DownloadKeepsClosed(fetch, version, {}, o.files, d, s);
      s1 := s + d.seen;
    }
  }

  /** The languages the first loop went through sit, when it reports no
      error, in one closed set of the directory it leaves. */
  lemma {:induction false} SyncLangsIntact(fetch: map<string, string>, version: string, langs: seq<string>,
                                           o: Outcome, s: set<string>)
    returns (s': set<string>)
    requires CatalogueLocalFree(fetch) && Closed(o.files, s)
    requires SyncLangs(fetch, version, langs, o).errors == o.errors
    ensures Closed(SyncLangs(fetch, version, langs, o).files, s') && s <= s'
    ensures forall i :: 0 <= i < |langs| ==> langs[i] in s'
    decreases |langs|
  {
    if langs == [] {
      s' := s;
    } else {
      var l := langs[0];
      var o1 := LangStep(fetch, version, l, o);
      assert o1.errors == o.errors by {
        assert o1.errors <= SyncLangs(fetch, version, langs[1..], o1).errors;
        assert |o1.errors| == |o.errors|;
      }
      var s1 := LangStepIntact(fetch, version, l, o, s);
      s' := SyncLangsIntact(fetch, version, langs[1..], o1, s1);
      forall i | 0 < i < |langs| ensures langs[i] in s' {
        assert langs[i] == langs[1..][i - 1];
      }
    }
  }

  /** A sync that reports no error, whose catalogue never already held a
      rewritten import, leaves every configured language intact and both
      theme files present. */
  lemma SyncIntact(fetch: map<string, string>, version: string, config: StoreConfig, files: map<string, string>)
    requires CatalogueLocalFree(fetch)
    requires SyncSpec(fetch, version, config, files).errors == []
    ensures var r := SyncSpec(fetch, version, config, files);
      (forall l :: l in config.languages ==> !Stale(r.files, l))
      && ThemeFile(config.light) in r.files && ThemeFile(config.dark) in r.files
  {
    var o0 := Outcome(files, [], []);
    var o := SyncLangs(fetch, version, config.languages, o0);
    var r := SyncSpec(fetch, version, config, files);
    assert o.errors == [];
    assert Closed(files, {});
    var s := SyncLangsIntact(fetch, version, config.languages, o0, {});
    SyncThemesSameGrammars(fetch, version, [config.light, config.dark], o);
    forall l | l in config.languages ensures !Stale(r.files, l) {
      var i :| 0 <= i < |config.languages| && config.languages[i] == l;
      SameGrammarsStale(o.files, r.files, l);
      ClosedNotStale(o.files, s, l);
    }
  }

  lemma {:induction false} SyncLangsIdle(fetch: map<string, string>, version: string, langs: seq<string>, o: Outcome)
    requires forall l :: l in langs ==> !Stale(o.files, l)
    ensures SyncLangs(fetch, version, langs, o) == o
    decreases |langs|
  {
    if langs != [] {
      assert LangStep(fetch, version, langs[0], o) == o;
      SyncLangsIdle(fetch, version, langs[1..], o);
    }
  }

  lemma {:induction false} SyncThemesIdle(fetch: map<string, string>, version: string, themes: seq<string>, o: Outcome)
    requires forall t :: t in themes ==> ThemeFile(t) in o.files
    ensures SyncThemes(fetch, version, themes, o) == o
    decreases |themes|
  {
    if themes != [] {
      assert ThemeStep(fetch, version, themes[0], o) == o;
      SyncThemesIdle(fetch, version, themes[1..], o);
    }
  }

  /** After a sync without errors a second sync, with any catalogue,
      downloads nothing, reports nothing and changes no file. */
  lemma SecondSyncIdle(fetch: map<string, string>, fetch2: map<string, string>, version: string,
                       config: StoreConfig, files: map<string, string>)
    requires CatalogueLocalFree(fetch)
    requires SyncSpec(fetch, version, config, files).errors == []
    ensures var r := SyncSpec(fetch, version, config, files);
      SyncSpec(fetch2, version, config, r.files) == Outcome(r.files, [], [])
  {
    var f := SyncSpec(fetch, version, config, files).files;
    var o0 := Outcome(f, [], []);
    assert SyncLangs(fetch2, version, config.languages, o0) == o0 by {
      SyncIntact(fetch, version, config, files);
      SyncLangsIdle(fetch2, version, config.languages, o0);
    }
    assert SyncThemes(fetch2, version, [config.light, config.dark], o0) == o0 by {
      SyncIntact(fetch, version, config, files);
      SyncThemesIdle(fetch2, version, [config.light, config.dark], o0);
    }
  }

  /** With the same light and dark theme the theme is fetched at most once:
      a present file is left alone, a fetch that succeeds writes it once,
      and only a fetch that fails is tried (and reported) again. */
  lemma SameThemeFetchedOnce(fetch: map<string, string>, version: string, theme: string, o: Outcome)
    ensures var r := SyncThemes(fetch, version, [theme, theme], o);
      && (ThemeFile(theme) in o.files ==> r == o)
      && (ThemeFile(theme) !in o.files && ThemeUrl(version, theme) in fetch ==>
            r.downloaded == o.downloaded + [ThemeFile(theme)] && r.errors == o.errors
            && r.files == o.files[ThemeFile(theme) := fetch[ThemeUrl(version, theme)]])
      && (ThemeFile(theme) !in o.files && ThemeUrl(version, theme) !in fetch ==>
            r == Outcome(o.files, o.downloaded, o.errors + [ThemeError(theme), ThemeError(theme)]))
  {
    var o1 := ThemeStep(fetch, version, theme, o);
    assert [theme, theme][1..] == [theme];
    assert SyncThemes(fetch, version, [theme, theme], o) == SyncThemes(fetch, version, [theme], o1);
    assert SyncThemes(fetch, version, [theme], o1) == ThemeStep(fetch, version, theme, o1);
  }

  // ---------------------------------------------------------------------
  // Retry after a failed download
  // ---------------------------------------------------------------------

  lemma {:induction false} SyncThemesOnlyThemeErrors(fetch: map<string, string>, version: string,
                                                     themes: seq<string>, o: Outcome, l: string)
    requires LangError(l) in SyncThemes(fetch, version, themes, o).errors
    ensures LangError(l) in o.errors
    decreases |themes|
  {
    if themes != [] {
      var o1 := ThemeStep(fetch, version, themes[0], o);
      SyncThemesOnlyThemeErrors(fetch, version, themes[1..], o1, l);
    }
  }

  /** A sync of one language that reports the language: its download
      raised. */
  lemma OneLangFailed(fetch: map<string, string>, version: string, lang: string, light: string, dark: string,
                      files: map<string, string>)
    requires Stale(files, lang)
    requires LangError(lang) in SyncSpec(fetch, version, StoreConfig([lang], light, dark), files).errors
    ensures !Download(fetch, version, lang, {}, files).ok
    ensures SameGrammars(Download(fetch, version, lang, {}, files).files,
                         SyncSpec(fetch, version, StoreConfig([lang], light, dark), files).files)
  {
    var o0 := Outcome(files, [], []);
    var o := SyncLangs(fetch, version, [lang], o0);
    var step := LangStep(fetch, version, lang, o0);
    assert o == SyncLangs(fetch, version, [], step) by {
      assert [lang][1..] == [];
    }
    SyncThemesOnlyThemeErrors(fetch, version, [light, dark], o, lang);
    SyncThemesSameGrammars(fetch, version, [light, dark], o);
  }

  /** A sync of one language into a directory without grammars that
      reports the language leaves it stale, so the next sync, with whatever
      catalogue, downloads it again or reports it again. */
  lemma SyncRetriesFailedLanguage(fetch: map<string, string>, fetch2: map<string, string>, version: string,
                                  lang: string, light: string, dark: string, files: map<string, string>)
    requires CatalogueLocalFree(fetch) && LocalLangs(files) == {}
    requires LangError(lang) in SyncSpec(fetch, version, StoreConfig([lang], light, dark), files).errors
    ensures var f := SyncSpec(fetch, version, StoreConfig([lang], light, dark), files).files;
      && Stale(f, lang)
      && var r2 := SyncSpec(fetch2, version, StoreConfig([lang], light, dark), f);
        LangFile(lang) in r2.downloaded || LangError(lang) in r2.errors
  {
    var config := StoreConfig([lang], light, dark);
    var f := SyncSpec(fetch, version, config, files).files;
    assert Stale(f, lang) by {
      LocalLangsExact(files, lang);
      BadIsStale(files, lang);
      OneLangFailed(fetch, version, lang, light, dark, files);
      DownloadFailureLeavesStale(fetch, version, lang, files);
      SameGrammarsStale(Download(fetch, version, lang, {}, files).files, f, lang);
    }
    assert config.languages[..0] == [];
    SyncReportsStale(fetch2, version, config, f, 0);
  }
}
