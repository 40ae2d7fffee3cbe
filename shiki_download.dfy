/** What `ShikiStore.download_lang` (anki_markdown/shiki.py) does, as
    functions of the module catalogue: `fetch` maps module URLs to their
    text, and a URL it lacks is a fetch that raises. A download marks the
    name seen, fetches its module, follows one alias hop, writes the
    rewritten module under the requested name, then downloads each
    dependency in order and stops at the first failure. */
module ShikiDownload {
  import opened Common
  import opened ShikiText
  import opened ShikiFiles

  function LangUrl(version: string, name: string): (u: string) {
    EsmUrl("lang", name, version)
  }

  function ThemeUrl(version: string, name: string): (u: string) {
    EsmUrl("theme", name, version)
  }

  lemma LangUrlInjective(version: string, a: string, b: string)
    ensures LangUrl(version, a) == LangUrl(version, b) ==> a == b
  {
    var pre := EsmBase + "/" + Package("lang") + "@" + version + "/es2022/";
    var ua := LangUrl(version, a);
    var ub := LangUrl(version, b);
    assert ua == pre + a + ".mjs" && ub == pre + b + ".mjs";
    if ua == ub {
      assert a == ua[|pre|..|ua| - 4];
      assert b == ub[|pre|..|ub| - 4];
    }
  }

  /** The module text written for `name`: its own module, or the module it
      re-exports when it is an alias stub; `None` when a fetch raises. */
  function Canonical(fetch: map<string, string>, version: string, name: string): (r: Option<string>)
    ensures r.Some? ==> LangUrl(version, name) in fetch
    ensures r.Some? ==> r.value in fetch.Values
  {
    var u := LangUrl(version, name);
    if u !in fetch then None
    else
      match IsAliasModule(fetch[u])
      case None => Some(fetch[u])
      case Some(c) =>
        var cu := LangUrl(version, c);
        if cu in fetch then Some(fetch[cu]) else None
  }

  /** The result of a download: the new directory, the grown `_seen` set,
      whether no fetch raised, and the names fetched in order. */
  datatype Fetched = Fetched(files: map<string, string>, seen: set<string>, ok: bool, log: seq<string>)

  function LangUrls(version: string, seen: set<string>): set<string> {
    set n | n in seen :: LangUrl(version, n)
  }

  /** How many catalogue modules are not yet claimed by a seen name. */
  function Unclaimed(fetch: map<string, string>, version: string, seen: set<string>): nat {
    |fetch.Keys - LangUrls(version, seen)|
  }

  lemma SubsetCard<T>(a: set<T>, b: set<T>)
    requires a <= b
    ensures |a| <= |b|
    ensures a < b ==> |a| < |b|
  {
    assert b == a + (b - a);
    assert a * (b - a) == {};
    if a < b {
      var x :| x in b && x !in a;
      assert x in b - a;
    }
  }

  /** Seeing more names claims more modules. */
  lemma UnclaimedShrinks(fetch: map<string, string>, version: string, seen: set<string>, more: set<string>)
    requires seen <= more
    ensures Unclaimed(fetch, version, more) <= Unclaimed(fetch, version, seen)
  {
    SubsetCard(fetch.Keys - LangUrls(version, more), fetch.Keys - LangUrls(version, seen));
  }

  /** Seeing a new name whose module exists claims one more module. */
  lemma UnclaimedDrops(fetch: map<string, string>, version: string, seen: set<string>, more: set<string>, name: string)
    requires seen <= more && name !in seen && name in more && LangUrl(version, name) in fetch
    ensures Unclaimed(fetch, version, more) < Unclaimed(fetch, version, seen)
  {
    var u := LangUrl(version, name);
    forall n | n in seen ensures LangUrl(version, n) != u {
      LangUrlInjective(version, n, name);
    }
    assert u in fetch.Keys - LangUrls(version, seen);
    assert u !in fetch.Keys - LangUrls(version, more);
    SubsetCard(fetch.Keys - LangUrls(version, more), fetch.Keys - LangUrls(version, seen));
  }

  /** `download_lang(name, seen)`. */
  function Download(fetch: map<string, string>, version: string, name: string,
                    seen: set<string>, files: map<string, string>): (r: Fetched)
    ensures seen + {name} <= r.seen
    decreases Unclaimed(fetch, version, seen), 0
  {
    if name in seen then Fetched(files, seen, true, [])
    else
      var seen1 := seen + {name};
      match Canonical(fetch, version, name)
      case None => Fetched(files, seen1, false, [name])
      case Some(text) =>
        UnclaimedDrops(fetch, version, seen, seen1, name);
        var rest := DownloadAll(fetch, version, LangDeps(text), seen1, files[LangFile(name) := Rewrite(text)]);
        rest.(log := [name] + rest.log)
  }

  /** `for dep in deps: self.download_lang(dep, _seen)`, which stops at the
      first exception. */
  function DownloadAll(fetch: map<string, string>, version: string, deps: seq<string>,
                       seen: set<string>, files: map<string, string>): (r: Fetched)
    ensures seen <= r.seen
    decreases Unclaimed(fetch, version, seen), 1, |deps|
  {
    if deps == [] then Fetched(files, seen, true, [])
    else
      var first := Download(fetch, version, deps[0], seen, files);
      if !first.ok then first
      else
        UnclaimedShrinks(fetch, version, seen, first.seen);
        var rest := DownloadAll(fetch, version, deps[1..], first.seen, first.files);
        rest.(log := first.log + rest.log)
  }

  // ---------------------------------------------------------------------
  // What a download changes
  // ---------------------------------------------------------------------

  /** The files a download writes for the names it saw: one per name whose
      module could be fetched. */
  function WrittenKeys(fetch: map<string, string>, version: string, added: set<string>): set<string> {
    set n | n in added && Canonical(fetch, version, n).Some? :: LangFile(n)
  }

  /** The log names each newly seen name once. */
  ghost predicate LogExact(log: seq<string>, added: set<string>) {
    NoDuplicates(log) && forall n :: n in log <==> n in added
  }

  /** The directory gained the file of every new name whose module could
      be fetched, holding that module rewritten, and nothing else changed. */
  ghost predicate FilesAfter(fetch: map<string, string>, version: string, files: map<string, string>,
                             after: map<string, string>, added: set<string>)
  {
    (forall k :: k in after <==> k in files || k in WrittenKeys(fetch, version, added))
    && (forall k :: k in files && k !in WrittenKeys(fetch, version, added) ==> after[k] == files[k])
    && (forall n :: n in added && Canonical(fetch, version, n).Some? ==>
          LangFile(n) in after && after[LangFile(n)] == Rewrite(Canonical(fetch, version, n).value))
  }

  /** Success means that every fetch succeeded. */
  ghost predicate OkExact(fetch: map<string, string>, version: string, ok: bool, added: set<string>) {
    ok <==> forall n :: n in added ==> Canonical(fetch, version, n).Some?
  }

  /** After a success every dependency of every written module is seen. */
  ghost predicate DepsSeen(fetch: map<string, string>, version: string, ok: bool, added: set<string>, seen: set<string>) {
    ok ==> forall n :: n in added && Canonical(fetch, version, n).Some? ==>
      forall d :: d in LangDeps(Canonical(fetch, version, n).value) ==> d in seen
  }

  /** Everything a download (or a run of them) promises about its result,
      for the names `r.seen - seen` it saw first:
      - it fetched each of them once, in the order of `log`;
      - it wrote the rewritten module of each one it could fetch, under
        the requested name, and changed no other file;
      - it succeeded exactly when every fetch succeeded, and then every
        dependency of every module it wrote has been seen. */
  ghost predicate Effect(fetch: map<string, string>, version: string, seen: set<string>,
                         files: map<string, string>, r: Fetched)
  {
    seen <= r.seen
    && LogExact(r.log, r.seen - seen)
    && FilesAfter(fetch, version, files, r.files, r.seen - seen)
    && OkExact(fetch, version, r.ok, r.seen - seen)
    && DepsSeen(fetch, version, r.ok, r.seen - seen, r.seen)
  }

  lemma LogCompose(l1: seq<string>, a1: set<string>, l2: seq<string>, a2: set<string>)
    requires LogExact(l1, a1) && LogExact(l2, a2) && a1 !! a2
    ensures LogExact(l1 + l2, a1 + a2)
  {
    var log := l1 + l2;
    forall i, j | 0 <= i < j < |log| ensures log[i] != log[j] {
      if j < |l1| {
        assert log[i] == l1[i] && log[j] == l1[j];
      } else if i >= |l1| {
        assert log[i] == l2[i - |l1|] && log[j] == l2[j - |l1|];
      } else {
        assert log[i] == l1[i] && log[j] == l2[j - |l1|];
        assert log[i] in a1 && log[j] in a2;
      }
    }
    forall n ensures n in log <==> n in a1 + a2 {
      assert n in log <==> n in l1 || n in l2;
    }
  }

  lemma WrittenKeysUnion(fetch: map<string, string>, version: string, a1: set<string>, a2: set<string>)
    ensures WrittenKeys(fetch, version, a1 + a2) == WrittenKeys(fetch, version, a1) + WrittenKeys(fetch, version, a2)
  {
  }

  /** The file of a name is written only for that name. */
  lemma WrittenKeysOf(fetch: map<string, string>, version: string, a: set<string>, n: string)
    ensures LangFile(n) in WrittenKeys(fetch, version, a) <==> n in a && Canonical(fetch, version, n).Some?
  {
    if LangFile(n) in WrittenKeys(fetch, version, a) {
      var m :| m in a && Canonical(fetch, version, m).Some? && LangFile(m) == LangFile(n);
      LangFileInjective(m, n);
    }
  }

  lemma FilesCompose(fetch: map<string, string>, version: string, f0: map<string, string>,
                     f1: map<string, string>, f2: map<string, string>, a1: set<string>, a2: set<string>)
    requires FilesAfter(fetch, version, f0, f1, a1) && FilesAfter(fetch, version, f1, f2, a2) && a1 !! a2
    ensures FilesAfter(fetch, version, f0, f2, a1 + a2)
  {
    WrittenKeysUnion(fetch, version, a1, a2);
    forall n | n in a1 && Canonical(fetch, version, n).Some?
      ensures LangFile(n) in f2 && f2[LangFile(n)] == Rewrite(Canonical(fetch, version, n).value)
    {
      WrittenKeysOf(fetch, version, a2, n);
    }
  }

  lemma DepsCompose(fetch: map<string, string>, version: string, a1: set<string>, s1: set<string>,
                    ok2: bool, a2: set<string>, s2: set<string>)
    requires DepsSeen(fetch, version, true, a1, s1) && DepsSeen(fetch, version, ok2, a2, s2) && s1 <= s2
    ensures DepsSeen(fetch, version, ok2, a1 + a2, s2)
  {
  }

  /** Two downloads in a row: their effects add up. */
  lemma EffectCompose(fetch: map<string, string>, version: string, seen: set<string>,
                      files: map<string, string>, first: Fetched, rest: Fetched)
    requires Effect(fetch, version, seen, files, first) && first.ok
    requires Effect(fetch, version, first.seen, first.files, rest)
    ensures Effect(fetch, version, seen, files, rest.(log := first.log + rest.log))
  {
    var a1 := first.seen - seen;
    var a2 := rest.seen - first.seen;
    assert rest.seen - seen == a1 + a2;
    LogCompose(first.log, a1, rest.log, a2);
    FilesCompose(fetch, version, files, first.files, rest.files, a1, a2);
    DepsCompose(fetch, version, a1, first.seen, rest.ok, a2, rest.seen);
  }

  /** A download has the effect its predicate describes. */
  lemma {:induction false} DownloadEffect(fetch: map<string, string>, version: string, name: string,
                                          seen: set<string>, files: map<string, string>)
    ensures Effect(fetch, version, seen, files, Download(fetch, version, name, seen, files))
    decreases Unclaimed(fetch, version, seen), 0
  {
    var r := Download(fetch, version, name, seen, files);
    if name in seen {
      assert r.seen - seen == {};
      assert WrittenKeys(fetch, version, {}) == {};
    } else {
      var seen1 := seen + {name};
      match Canonical(fetch, version, name)
      case None =>
        assert r.seen - seen == {name};
        assert WrittenKeys(fetch, version, {name}) == {};
      case Some(text) =>
        UnclaimedDrops(fetch, version, seen, seen1, name);
        var files1 := files[LangFile(name) := Rewrite(text)];
        var deps := LangDeps(text);
        var rest := DownloadAll(fetch, version, deps, seen1, files1);
        DownloadAllEffect(fetch, version, deps, seen1, files1);
        DownloadAllSeesDeps(fetch, version, deps, seen1, files1);
        assert r == rest.(log := [name] + rest.log);
        EffectStart(fetch, version, name, seen, files, text, rest);
    }
  }

  /** The step from the first write to the download of the dependencies. */
  lemma EffectStart(fetch: map<string, string>, version: string, name: string, seen: set<string>,
                    files: map<string, string>, text: string, rest: Fetched)
    requires name !in seen && Canonical(fetch, version, name) == Some(text)
    requires Effect(fetch, version, seen + {name}, files[LangFile(name) := Rewrite(text)], rest)
    requires rest.ok ==> forall d :: d in LangDeps(text) ==> d in rest.seen
    ensures Effect(fetch, version, seen, files, rest.(log := [name] + rest.log))
  {
    var f2 := rest.seen - (seen + {name});
    assert rest.seen - seen == {name} + f2;
    LogStart(name, rest.log, f2);
    FilesStart(fetch, version, name, files, text, rest.files, f2);
  }

  /** Fetching a new name first puts it at the head of the log. */
  lemma LogStart(name: string, log: seq<string>, added: set<string>)
    requires LogExact(log, added) && name !in added
    ensures LogExact([name] + log, {name} + added)
  {
    var l := [name] + log;
    forall i, j | 0 <= i < j < |l| ensures l[i] != l[j] {
      assert l[j] == log[j - 1];
      if i > 0 {
        assert l[i] == log[i - 1];
      }
    }
    forall n ensures n in l <==> n in {name} + added {
      assert n in l <==> n == name || n in log;
    }
  }

  /** Writing the module of a new name first, then the files of the names
      seen after it, is one write per name. */
  lemma FilesStart(fetch: map<string, string>, version: string, name: string, files: map<string, string>,
                   text: string, after: map<string, string>, added: set<string>)
    requires Canonical(fetch, version, name) == Some(text) && name !in added
    requires FilesAfter(fetch, version, files[LangFile(name) := Rewrite(text)], after, added)
    ensures FilesAfter(fetch, version, files, after, {name} + added)
  {
    WrittenKeysAddOne(fetch, version, name, added);
  }

  lemma WrittenKeysAddOne(fetch: map<string, string>, version: string, name: string, added: set<string>)
    requires Canonical(fetch, version, name).Some? && name !in added
    ensures WrittenKeys(fetch, version, {name} + added) == {LangFile(name)} + WrittenKeys(fetch, version, added)
    ensures LangFile(name) !in WrittenKeys(fetch, version, added)
  {
    WrittenKeysUnion(fetch, version, {name}, added);
    WrittenKeysSingle(fetch, version, name);
    WrittenKeysOf(fetch, version, added, name);
  }

  lemma WrittenKeysSingle(fetch: map<string, string>, version: string, name: string)
    requires Canonical(fetch, version, name).Some?
    ensures WrittenKeys(fetch, version, {name}) == {LangFile(name)}
  {
  }

  lemma {:induction false} DownloadAllEffect(fetch: map<string, string>, version: string, deps: seq<string>,
                                             seen: set<string>, files: map<string, string>)
    ensures Effect(fetch, version, seen, files, DownloadAll(fetch, version, deps, seen, files))
    decreases Unclaimed(fetch, version, seen), 1, |deps|
  {
    if deps == [] {
      assert WrittenKeys(fetch, version, {}) == {};
    } else {
      var first := Download(fetch, version, deps[0], seen, files);
      DownloadEffect(fetch, version, deps[0], seen, files);
      if first.ok {
        UnclaimedShrinks(fetch, version, seen, first.seen);
        var rest := DownloadAll(fetch, version, deps[1..], first.seen, first.files);
        DownloadAllEffect(fetch, version, deps[1..], first.seen, first.files);
        EffectCompose(fetch, version, seen, files, first, rest);
      }
    }
  }

  /** A run of downloads that succeeds has seen every name it was given. */
  lemma {:induction false} DownloadAllSeesDeps(fetch: map<string, string>, version: string, deps: seq<string>,
                                               seen: set<string>, files: map<string, string>)
    ensures var r := DownloadAll(fetch, version, deps, seen, files);
      r.ok ==> forall d :: d in deps ==> d in r.seen
    decreases |deps|
  {
    if deps != [] {
      var first := Download(fetch, version, deps[0], seen, files);
      if first.ok {
        DownloadAllSeesDeps(fetch, version, deps[1..], first.seen, first.files);
        var r := DownloadAll(fetch, version, deps[1..], first.seen, first.files);
        assert forall d :: d in deps ==> d == deps[0] || d in deps[1..];
      }
    }
  }

  // ---------------------------------------------------------------------
  // A successful download leaves intact grammars
  // ---------------------------------------------------------------------

  /** No module of the catalogue already holds a rewritten local import. */
  ghost predicate CatalogueLocalFree(fetch: map<string, string>) {
    forall u :: u in fetch ==> LocalFree(fetch[u])
  }

  /** A module written by a download is good, and its local imports are
      exactly the dependencies the download followed. */
  lemma WrittenModuleGood(fetch: map<string, string>, version: string, files: map<string, string>, n: string)
    requires CatalogueLocalFree(fetch) && Canonical(fetch, version, n).Some?
    requires LangFile(n) in files && files[LangFile(n)] == Rewrite(Canonical(fetch, version, n).value)
    ensures Good(files, n)
    ensures Deps(files, n) == LangDeps(Canonical(fetch, version, n).value)
  {
    var text := Canonical(fetch, version, n).value;
    NoImportAfterRewrite(text);
    var u :| u in fetch && fetch[u] == text;
    LocalOfRewrite(text);
  }

  /** A successful download keeps a closed set closed and adds to it every
      name it saw: the grammars it wrote form, with those already intact, a
      set that `needs_redownload` finds intact. */
  lemma DownloadKeepsClosed(fetch: map<string, string>, version: string, seen: set<string>,
                            files: map<string, string>, r: Fetched, s: set<string>)
    requires Effect(fetch, version, seen, files, r) && r.ok
    requires CatalogueLocalFree(fetch) && Closed(files, s) && seen <= s
    ensures Closed(r.files, s + r.seen)
  {
    var added := r.seen - seen;
    forall n | n in s + r.seen
      ensures Good(r.files, n) && forall d :: d in Deps(r.files, n) ==> d in s + r.seen
    {
      if n in added {
        WrittenModuleGood(fetch, version, r.files, n);
      } else {
        WrittenKeysOf(fetch, version, added, n);
        assert r.files[LangFile(n)] == files[LangFile(n)];
      }
    }
  }

  /** `download_lang(name)` from an empty `_seen` that raises nothing leaves
      `name` and everything it reaches intact. */
  lemma DownloadIntact(fetch: map<string, string>, version: string, name: string, files: map<string, string>)
    requires CatalogueLocalFree(fetch)
    requires Download(fetch, version, name, {}, files).ok
    ensures Closed(Download(fetch, version, name, {}, files).files, Download(fetch, version, name, {}, files).seen)
    ensures !Stale(Download(fetch, version, name, {}, files).files, name)
  {
    var r := Download(fetch, version, name, {}, files);
    DownloadEffect(fetch, version, name, {}, files);
    assert Closed(files, {});
    DownloadKeepsClosed(fetch, version, {}, files, r, {});
    assert {} + r.seen == r.seen;
    ClosedNotStale(r.files, r.seen, name);
  }

  // ---------------------------------------------------------------------
  // A failed download leaves the requested grammar stale
  // ---------------------------------------------------------------------

  /** The parent file is written before its dependencies are downloaded, so
      a failing dependency leaves it in place. */
  lemma ParentKeptOnFailure(fetch: map<string, string>, version: string, name: string,
                            seen: set<string>, files: map<string, string>)
    requires name !in seen && Canonical(fetch, version, name).Some?
    ensures var r := Download(fetch, version, name, seen, files);
      LangFile(name) in r.files && r.files[LangFile(name)] == Rewrite(Canonical(fetch, version, name).value)
  {
    DownloadEffect(fetch, version, name, seen, files);
  }

  /** Every grammar file present belongs to a seen name. */
  ghost predicate GrammarsSeen(files: map<string, string>, seen: set<string>) {
    forall n :: LangFile(n) in files ==> n in seen
  }

  lemma GrammarsSeenAfter(fetch: map<string, string>, version: string, seen: set<string>,
                          files: map<string, string>, r: Fetched)
    requires Effect(fetch, version, seen, files, r) && GrammarsSeen(files, seen)
    ensures GrammarsSeen(r.files, r.seen)
  {
    forall n | LangFile(n) in r.files ensures n in r.seen {
      WrittenKeysOf(fetch, version, r.seen - seen, n);
    }
  }

  lemma {:induction false} DownloadFailureStale(fetch: map<string, string>, version: string, name: string,
                                                seen: set<string>, files: map<string, string>)
    requires CatalogueLocalFree(fetch) && GrammarsSeen(files, seen) && name !in seen
    requires !Download(fetch, version, name, seen, files).ok
    ensures Stale(Download(fetch, version, name, seen, files).files, name)
    decreases Unclaimed(fetch, version, seen), 0, 0, 0
  {
    var r := Download(fetch, version, name, seen, files);
    match Canonical(fetch, version, name)
    case None =>
      assert LangFile(name) !in r.files;
      BadIsStale(r.files, name);
    case Some(text) =>
      var seen1 := seen + {name};
      UnclaimedDrops(fetch, version, seen, seen1, name);
      var files1 := files[LangFile(name) := Rewrite(text)];
      var deps := LangDeps(text);
      assert GrammarsSeen(files1, seen1) by {
        forall n | LangFile(n) in files1 ensures n in seen1 {
          LangFileInjective(n, name);
        }
      }
      var dep := DownloadAllFailureStale(fetch, version, deps, seen1, files1);
      var rest := DownloadAll(fetch, version, deps, seen1, files1);
      assert r.files == rest.files;
      DownloadAllEffect(fetch, version, deps, seen1, files1);
      WrittenKeysOf(fetch, version, rest.seen - seen1, name);
      assert rest.files[LangFile(name)] == Rewrite(text);
      WrittenModuleGood(fetch, version, rest.files, name);
      StaleUpward(rest.files, name, dep);
  }

  /** A run of downloads that fails leaves one of its names stale. */
  lemma {:induction false} DownloadAllFailureStale(fetch: map<string, string>, version: string, deps: seq<string>,
                                                   seen: set<string>, files: map<string, string>)
    returns (dep: string)
    requires CatalogueLocalFree(fetch) && GrammarsSeen(files, seen)
    requires !DownloadAll(fetch, version, deps, seen, files).ok
    ensures dep in deps && Stale(DownloadAll(fetch, version, deps, seen, files).files, dep)
    decreases Unclaimed(fetch, version, seen), 1, |deps|, 1
  {
    var first := Download(fetch, version, deps[0], seen, files);
    DownloadAllStep(fetch, version, deps, seen, files);
    if !first.ok {
      DownloadFailureStale(fetch, version, deps[0], seen, files);
      dep := deps[0];
    } else {
      dep := DownloadRestFailureStale(fetch, version, deps, seen, files);
    }
  }

  /** A run whose first download succeeded fails later. */
  lemma {:induction false} DownloadRestFailureStale(fetch: map<string, string>, version: string, deps: seq<string>,
                                                    seen: set<string>, files: map<string, string>)
    returns (dep: string)
    requires CatalogueLocalFree(fetch) && GrammarsSeen(files, seen) && deps != []
    requires Download(fetch, version, deps[0], seen, files).ok
    requires !DownloadAll(fetch, version, deps[1..], Download(fetch, version, deps[0], seen, files).seen,
                          Download(fetch, version, deps[0], seen, files).files).ok
    ensures dep in deps && Stale(DownloadAll(fetch, version, deps, seen, files).files, dep)
    decreases Unclaimed(fetch, version, seen), 1, |deps|, 0
  {
    var first := Download(fetch, version, deps[0], seen, files);
    UnclaimedShrinks(fetch, version, seen, first.seen);
    DownloadGrammarsSeen(fetch, version, deps[0], seen, files);
    dep := DownloadAllFailureStale(fetch, version, deps[1..], first.seen, first.files);
    RestStale(fetch, version, deps, seen, files, dep);
    InTail(deps, dep);
  }

  /** A download writes grammar files only for names it saw. */
  lemma DownloadGrammarsSeen(fetch: map<string, string>, version: string, name: string,
                             seen: set<string>, files: map<string, string>)
    requires GrammarsSeen(files, seen)
    ensures var r := Download(fetch, version, name, seen, files);
      GrammarsSeen(r.files, r.seen)
  {
    DownloadEffect(fetch, version, name, seen, files);
    GrammarsSeenAfter(fetch, version, seen, files, Download(fetch, version, name, seen, files));
  }

  /** After a successful first download, a name left stale by the rest of
      the run is left stale by the run. */
  lemma RestStale(fetch: map<string, string>, version: string, deps: seq<string>,
                  seen: set<string>, files: map<string, string>, dep: string)
    requires deps != [] && Download(fetch, version, deps[0], seen, files).ok
    requires Stale(DownloadAll(fetch, version, deps[1..], Download(fetch, version, deps[0], seen, files).seen,
                               Download(fetch, version, deps[0], seen, files).files).files, dep)
    ensures Stale(DownloadAll(fetch, version, deps, seen, files).files, dep)
  {
    DownloadAllStep(fetch, version, deps, seen, files);
  }

  /** One step of a run of downloads: a failed first download ends it,
      otherwise the rest of the run ends where it ends. */
  lemma DownloadAllStep(fetch: map<string, string>, version: string, deps: seq<string>,
                        seen: set<string>, files: map<string, string>)
    requires deps != []
    ensures var first := Download(fetch, version, deps[0], seen, files);
      var r := DownloadAll(fetch, version, deps, seen, files);
      if !first.ok then r == first else
        r.files == DownloadAll(fetch, version, deps[1..], first.seen, first.files).files
        && r.ok == DownloadAll(fetch, version, deps[1..], first.seen, first.files).ok
  {
  }

  /** `download_lang(name)` into a directory without grammars that raises
      leaves `name` stale, so the next sync downloads it again. */
  lemma DownloadFailureLeavesStale(fetch: map<string, string>, version: string, name: string,
                                   files: map<string, string>)
    requires CatalogueLocalFree(fetch) && LocalLangs(files) == {}
    requires !Download(fetch, version, name, {}, files).ok
    ensures Stale(Download(fetch, version, name, {}, files).files, name)
  {
    forall n ensures LangFile(n) !in files {
      LocalLangsExact(files, n);
    }
    DownloadFailureStale(fetch, version, name, {}, files);
  }
}
