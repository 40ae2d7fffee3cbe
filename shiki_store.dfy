/** The `ShikiStore` class of anki_markdown/shiki.py: an asset directory,
    held as a map from file name to text, and the methods that fill it
    from the module catalogue and clean it up. `fetch_module` is the map
    `fetch` from URL to module text; a missing URL is a fetch that raises,
    and a raised exception is a `false` result. Every method is proved
    against the functions of ShikiDownload and ShikiSync. */
module ShikiAssets {
  import opened Common
  import opened ShikiText
  import opened ShikiFiles
  import opened ShikiDownload
  import opened ShikiSync

  /** The result of a call made first, then the rest. */
  function Prepend(log: seq<string>, r: Fetched): (p: Fetched) {
    r.(log := log + r.log)
  }

  /** The first write of a download, before its dependencies. */
  lemma DownloadFirstWrite(fetch: map<string, string>, version: string, name: string, seen: set<string>,
                           files: map<string, string>, raw: string)
    requires name !in seen && Canonical(fetch, version, name) == Some(raw)
    ensures Download(fetch, version, name, seen, files)
         == Prepend([name], DownloadAll(fetch, version, LangDeps(raw), seen + {name}, files[LangFile(name) := Rewrite(raw)]))
  {
  }

  /** One dependency of the loop: a failure ends the run, a success
      leaves the rest of the run. */
  lemma DownloadAllStep(fetch: map<string, string>, version: string, deps: seq<string>, i: nat,
                        seen: set<string>, files: map<string, string>)
    requires i < |deps|
    ensures var first := Download(fetch, version, deps[i], seen, files);
      DownloadAll(fetch, version, deps[i..], seen, files)
        == if !first.ok then first
           else Prepend(first.log, DownloadAll(fetch, version, deps[i + 1..], first.seen, first.files))
  {
    assert deps[i..][0] == deps[i] && deps[i..][1..] == deps[i + 1..];
  }

  /** One dependency of the loop after the names `log` already fetched:
      a failure ends the run with the failed download's result, a success
      leaves the rest of the run. */
  lemma DownloadLoopStep(fetch: map<string, string>, version: string, deps: seq<string>, i: nat,
                         seen: set<string>, files: map<string, string>, log: seq<string>, first: Fetched)
    requires i < |deps| && first == Download(fetch, version, deps[i], seen, files)
    ensures !first.ok ==> Prepend(log, DownloadAll(fetch, version, deps[i..], seen, files))
                          == first.(log := log + first.log)
    ensures first.ok ==> Prepend(log, DownloadAll(fetch, version, deps[i..], seen, files))
                         == Prepend(log + first.log, DownloadAll(fetch, version, deps[i + 1..], first.seen, first.files))
  {
    DownloadAllStep(fetch, version, deps, i, seen, files);
    if first.ok {
      var rest := DownloadAll(fetch, version, deps[i + 1..], first.seen, first.files);
      assert log + (first.log + rest.log) == (log + first.log) + rest.log;
    }
  }

  /** The loop has run through every dependency. */
  lemma DownloadAllDone(fetch: map<string, string>, version: string, deps: seq<string>,
                        seen: set<string>, files: map<string, string>, log: seq<string>)
    ensures Prepend(log, DownloadAll(fetch, version, deps[|deps|..], seen, files)) == Fetched(files, seen, true, log)
  {
    assert deps[|deps|..] == [];
    assert log + [] == log;
  }

  /** The two ways a download ends before any write. */
  lemma DownloadEarly(fetch: map<string, string>, version: string, name: string, seen: set<string>,
                      files: map<string, string>)
    ensures name in seen ==> Download(fetch, version, name, seen, files) == Fetched(files, seen, true, [])
    ensures name !in seen && Canonical(fetch, version, name).None? ==>
      Download(fetch, version, name, seen, files) == Fetched(files, seen + {name}, false, [name])
  {
  }

  class ShikiStore {
    /** The files of the store directory. */
    var files: map<string, string>
    /** The Shiki version in every module URL. */
    const version: string

    constructor(files: map<string, string>, version: string)
      ensures this.files == files && this.version == version
    {
      this.files := files;
      this.version := version;
    }

    /** `download_lang(name, _seen)`: returns the grown `_seen` set,
        whether no fetch raised, and (as a ghost) the names fetched. */
    method DownloadLang(name: string, seen: set<string>, fetch: map<string, string>)
      returns (seenOut: set<string>, ok: bool, ghost log: seq<string>)
      modifies this
      ensures Fetched(files, seenOut, ok, log) == Download(fetch, version, name, seen, old(files))
      decreases Unclaimed(fetch, version, seen), 0
    {
      DownloadEarly(fetch, version, name, seen, files);
      if name in seen {
        return seen, true, [];
      }
      seenOut := seen + {name};
      var url := EsmUrl("lang", name, version);
      if url !in fetch {
        return seenOut, false, [name];
      }
      var raw := fetch[url];
      var canonical := IsAliasModule(raw);
      if canonical.Some? {
        var aliasUrl := EsmUrl("lang", canonical.value, version);
        if aliasUrl !in fetch {
          return seenOut, false, [name];
        }
        raw := fetch[aliasUrl];
      }
      assert Canonical(fetch, version, name) == Some(raw);
      var deps := LangDeps(raw);
      var text := Rewrite(raw);
      DownloadFirstWrite(fetch, version, name, seen, files, raw);
      files := files[LangFile(name) := text];
      UnclaimedDrops(fetch, version, seen, seenOut, name);
      ghost var rest: seq<string>;
      seenOut, ok, rest := DownloadDeps(deps, seenOut, fetch);
      log := [name] + rest;
    }

    /** The loop of `download_lang` over the dependencies of the module
        just written: each is downloaded with the shared `_seen` set, and
        the first exception ends the loop and the download. */
    method DownloadDeps(deps: seq<string>, seen: set<string>, fetch: map<string, string>)
      returns (seenOut: set<string>, ok: bool, ghost log: seq<string>)
      modifies this
      ensures Fetched(files, seenOut, ok, log) == DownloadAll(fetch, version, deps, seen, old(files))
      decreases Unclaimed(fetch, version, seen), 1
    {
      seenOut := seen;
      ok := true;
      log := [];
      assert deps[0..] == deps;
      var i := 0;
      while i < |deps|
        invariant 0 <= i <= |deps|
        invariant seen <= seenOut
        invariant Unclaimed(fetch, version, seenOut) <= Unclaimed(fetch, version, seen)
        invariant DownloadAll(fetch, version, deps, seen, old(files))
               == Prepend(log, DownloadAll(fetch, version, deps[i..], seenOut, files))
        decreases |deps| - i
      {
        ghost var before := files;
        ghost var seenBefore := seenOut;
        var seen2: set<string>;
        var ok2: bool;
        ghost var log2: seq<string>;
        seen2, ok2, log2 := DownloadLang(deps[i], seenOut, fetch);
        DownloadLoopStep(fetch, version, deps, i, seenBefore, before, log, Fetched(files, seen2, ok2, log2));
        if !ok2 {
          return seen2, false, log + log2;
        }
        UnclaimedShrinks(fetch, version, seenBefore, seen2);
        log := log + log2;
        seenOut := seen2;
        i := i + 1;
      }
      DownloadAllDone(fetch, version, deps, seenOut, files, log);
    }

    /** `download_theme(name)`: the theme module is written as fetched. */
    method DownloadTheme(name: string, fetch: map<string, string>) returns (ok: bool)
      modifies this
      ensures ok == (ThemeUrl(version, name) in fetch)
      ensures files == if ok then old(files)[ThemeFile(name) := fetch[ThemeUrl(version, name)]] else old(files)
    {
      var url := EsmUrl("theme", name, version);
      if url !in fetch {
        return false;
      }
      files := files[ThemeFile(name) := fetch[url]];
      ok := true;
    }

    /** `needs_redownload(name)`: a walk over the local imports with a
        stack and a seen set, which stops at the first missing or broken
        grammar. */
    method NeedsRedownload(name: string) returns (b: bool)
      ensures b == Stale(files, name)
    {
      var stack := [name];
      var seen: set<string> := {};
      ghost var bound := WalkBound(files, name);
      WalkStart(files, name);
      while stack != []
        invariant Walk(files, name, seen, stack)
        invariant seen <= bound
        decreases |bound - seen|, |stack|
      {
        var lang := stack[|stack| - 1];
        assert lang in bound;
        if lang in seen {
          WalkSkip(files, name, seen, stack);
          stack := stack[..|stack| - 1];
          continue;
        }
        if LangFile(lang) !in files {
          WalkFound(files, name, seen, stack);
          return true;
        }
        var text := files[LangFile(lang)];
        if SearchImport(text).Some? {
          WalkFound(files, name, seen, stack);
          return true;
        }
        WalkVisit(files, name, seen, stack);
        assert |bound - (seen + {lang})| < |bound - seen| by {
          assert bound - seen == (bound - (seen + {lang})) + {lang};
        }
        seen := seen + {lang};
        stack := stack[..|stack| - 1] + LocalDeps(text);
      }
      WalkDone(files, name, seen);
      return false;
    }

    /** `collect_deps()`: the local imports of every grammar file. */
    method CollectDeps() returns (deps: set<string>)
      ensures deps == LangFileDeps(files)
    {
      deps := {};
      var todo := set k | k in files && IsLangFile(k);
      ghost var done: set<string> := {};
      while todo != {}
        invariant todo + done == set k | k in files && IsLangFile(k)
        invariant todo !! done
        invariant deps == DepsOf(files, done)
        decreases |todo|
      {
        var k :| k in todo;
        DepsOfAdd(files, done, k);
        deps := deps + (set d | d in LocalDeps(files[k]));
        todo := todo - {k};
        done := done + {k};
      }
      DepsOfAll(files);
    }

    /** The first loop of `cleanup`: removes the grammar files whose name
        is not in `keep`. */
    method RemoveGrammars(keep: set<string>) returns (removed: seq<string>)
      modifies this
      ensures forall k :: k in removed <==> k in old(files) && IsLangFile(k) && LangName(k) !in keep
      ensures forall k :: k in files <==> k in old(files) && k !in removed
      ensures forall k :: k in files ==> files[k] == old(files)[k]
      ensures NoDuplicates(removed)
      ensures forall i :: 0 <= i < |removed| ==> IsLangFile(removed[i])
    {
      removed := [];
      var todo := set k | k in files && IsLangFile(k);
      while todo != {}
        invariant todo <= set k | k in old(files) && IsLangFile(k)
        invariant forall k :: k in removed <==>
          k in old(files) && IsLangFile(k) && k !in todo && LangName(k) !in keep
        invariant forall k :: k in files <==> k in old(files) && k !in removed
        invariant forall k :: k in files ==> files[k] == old(files)[k]
        invariant NoDuplicates(removed)
        invariant forall i :: 0 <= i < |removed| ==> IsLangFile(removed[i])
        decreases |todo|
      {
        var f :| f in todo;
        todo := todo - {f};
        if LangName(f) !in keep {
          files := files - {f};
          removed := removed + [f];
        }
      }
    }

    /** The second loop of `cleanup`: removes the theme files that are
        neither `light` nor `dark`. */
    method RemoveThemes(light: string, dark: string) returns (removed: seq<string>)
      modifies this
      ensures forall k :: k in removed <==>
        k in old(files) && IsThemeFile(k) && ThemeName(k) != light && ThemeName(k) != dark
      ensures forall k :: k in files <==> k in old(files) && k !in removed
      ensures forall k :: k in files ==> files[k] == old(files)[k]
      ensures NoDuplicates(removed)
      ensures forall i :: 0 <= i < |removed| ==> IsThemeFile(removed[i])
    {
      removed := [];
      var todo := set k | k in files && IsThemeFile(k);
      while todo != {}
        invariant todo <= set k | k in old(files) && IsThemeFile(k)
        invariant forall k :: k in removed <==>
          k in old(files) && IsThemeFile(k) && k !in todo && ThemeName(k) != light && ThemeName(k) != dark
        invariant forall k :: k in files <==> k in old(files) && k !in removed
        invariant forall k :: k in files ==> files[k] == old(files)[k]
        invariant NoDuplicates(removed)
        invariant forall i :: 0 <= i < |removed| ==> IsThemeFile(removed[i])
        decreases |todo|
      {
        var f :| f in todo;
        todo := todo - {f};
        var n := ThemeName(f);
        if n != light && n != dark {
          files := files - {f};
          removed := removed + [f];
        }
      }
    }

    /** `cleanup(config)`: removes the unused grammar files, then the
        unused theme files, and returns their names in that order. The
        grammars kept are read before anything is removed. */
    method Cleanup(config: StoreConfig) returns (removed: seq<string>)
      modifies this
      ensures files == old(files) - Doomed(config, old(files))
      ensures forall k :: k in removed <==> k in Doomed(config, old(files))
      ensures NoDuplicates(removed)
      ensures GrammarsFirst(removed)
    {
      var collected := CollectDeps();
      var keep := (set l | l in config.languages) + collected;
      assert keep == Keep(config, files);
      ghost var start := files;
      var grammars := RemoveGrammars(keep);
      ghost var middle := files;
      var themes := RemoveThemes(config.light, config.dark);
      removed := grammars + themes;
      forall k ensures k in removed <==> k in Doomed(config, start) {
        LangAndThemeFilesDiffer(k);
      }
      forall i, j | 0 <= i < j < |removed|
        ensures removed[i] != removed[j] && !(IsThemeFile(removed[i]) && IsLangFile(removed[j]))
      {
        LangAndThemeFilesDiffer(removed[i]);
        LangAndThemeFilesDiffer(removed[j]);
        if i < |grammars| && j >= |grammars| {
          assert removed[i] == grammars[i] && removed[j] == themes[j - |grammars|];
        } else if j < |grammars| {
          assert removed[i] == grammars[i] && removed[j] == grammars[j];
        } else {
          assert removed[i] == themes[i - |grammars|] && removed[j] == themes[j - |grammars|];
        }
      }
      assert files == start - Doomed(config, start) by {
        forall k ensures k in files <==> k in start - Doomed(config, start) {
          LangAndThemeFilesDiffer(k);
        }
      }
    }

    /** `sync(config)`: downloads each configured language that
        `needs_redownload` reports, then each missing theme file. */
    method Sync(config: StoreConfig, fetch: map<string, string>)
      returns (downloaded: seq<string>, errors: seq<SyncError>)
      modifies this
      ensures Outcome(files, downloaded, errors) == SyncSpec(fetch, version, config, old(files))
    {
      downloaded := [];
      errors := [];
      ghost var o0 := Outcome(files, [], []);
      var langs := config.languages;
      assert langs[0..] == langs;
      var i := 0;
      while i < |langs|
        invariant 0 <= i <= |langs|
        invariant SyncLangs(fetch, version, langs, o0)
               == SyncLangs(fetch, version, langs[i..], Outcome(files, downloaded, errors))
        decreases |langs| - i
      {
        var lang := langs[i];
        ghost var before := Outcome(files, downloaded, errors);
        var stale := NeedsRedownload(lang);
        if stale {
          var seenOut: set<string>;
          var ok: bool;
          ghost var log: seq<string>;
          seenOut, ok, log := DownloadLang(lang, {}, fetch);
          if ok {
            downloaded := downloaded + [LangFile(lang)];
          } else {
            errors := errors + [LangError(lang)];
          }
        }
        assert Outcome(files, downloaded, errors) == LangStep(fetch, version, lang, before);
        assert langs[i..][0] == lang && langs[i..][1..] == langs[i + 1..];
        i := i + 1;
      }
      var themes := [config.light, config.dark];
      ghost var o1 := Outcome(files, downloaded, errors);
      assert themes[0..] == themes;
      var j := 0;
      while j < |themes|
        invariant 0 <= j <= |themes|
        invariant SyncThemes(fetch, version, themes, o1)
               == SyncThemes(fetch, version, themes[j..], Outcome(files, downloaded, errors))
        decreases |themes| - j
      {
        var theme := themes[j];
        ghost var before := Outcome(files, downloaded, errors);
        if ThemeFile(theme) !in files {
          var ok := DownloadTheme(theme, fetch);
          if ok {
            downloaded := downloaded + [ThemeFile(theme)];
          } else {
            errors := errors + [ThemeError(theme)];
          }
        }
        assert Outcome(files, downloaded, errors) == ThemeStep(fetch, version, theme, before);
        assert themes[j..][0] == theme && themes[j..][1..] == themes[j + 1..];
        j := j + 1;
      }
    }
  }
}
