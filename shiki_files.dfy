/** The asset directory of `ShikiStore` (anki_markdown/shiki.py) as a map
    from file name to text: the names of grammar and theme files, the
    globs `_lang-*.js` and `_theme-*.js` with `Path.stem`, and when a
    grammar counts as stale for `needs_redownload`. */
module ShikiFiles {
  import opened Common
  import opened ShikiText

  /** `f"_lang-{name}.js"`. */
  function LangFile(name: string): (k: string) {
    "_lang-" + name + ".js"
  }

  /** `f"_theme-{name}.js"`. */
  function ThemeFile(name: string): (k: string) {
    "_theme-" + name + ".js"
  }

  /** A match of the glob `_lang-*.js`. */
  predicate IsLangFile(k: string) {
    |k| >= 9 && k[..6] == "_lang-" && k[|k| - 3..] == ".js"
  }

  /** A match of the glob `_theme-*.js`. */
  predicate IsThemeFile(k: string) {
    |k| >= 10 && k[..7] == "_theme-" && k[|k| - 3..] == ".js"
  }

  /** `f.stem.removeprefix("_lang-")`: the stem drops the last suffix,
      `.js`. */
  function LangName(k: string): (n: string)
    requires IsLangFile(k)
  {
    k[6..|k| - 3]
  }

  /** `f.stem.removeprefix("_theme-")`. */
  function ThemeName(k: string): (n: string)
    requires IsThemeFile(k)
  {
    k[7..|k| - 3]
  }

  /** The glob finds every grammar file the store writes, and the stem
      gives back the name it was written for; every file the glob finds
      is the file of that name. */
  lemma LangFileRoundTrip(name: string, k: string)
    ensures IsLangFile(LangFile(name)) && LangName(LangFile(name)) == name
    ensures IsLangFile(k) ==> LangFile(LangName(k)) == k
  {
    var f := LangFile(name);
    assert f[..6] == "_lang-" && f[|f| - 3..] == ".js";
    if IsLangFile(k) {
      assert k == k[..6] + k[6..|k| - 3] + k[|k| - 3..];
    }
  }

  lemma ThemeFileRoundTrip(name: string, k: string)
    ensures IsThemeFile(ThemeFile(name)) && ThemeName(ThemeFile(name)) == name
    ensures IsThemeFile(k) ==> ThemeFile(ThemeName(k)) == k
  {
    var f := ThemeFile(name);
    assert f[..7] == "_theme-" && f[|f| - 3..] == ".js";
    if IsThemeFile(k) {
      assert k == k[..7] + k[7..|k| - 3] + k[|k| - 3..];
    }
  }

  /** Different names have different files. */
  lemma LangFileInjective(a: string, b: string)
    ensures LangFile(a) == LangFile(b) ==> a == b
  {
    LangFileRoundTrip(a, "");
    LangFileRoundTrip(b, "");
  }

  /** No file is both a grammar and a theme: a theme download never
      replaces a grammar. */
  lemma LangAndThemeFilesDiffer(k: string)
    ensures !(IsLangFile(k) && IsThemeFile(k))
  {
    if IsLangFile(k) {
      assert k[1] == "_lang-"[1];
    }
  }

  lemma LangFileNotTheme(a: string, b: string)
    ensures LangFile(a) != ThemeFile(b)
  {
    LangFileRoundTrip(a, "");
    ThemeFileRoundTrip(b, "");
    LangAndThemeFilesDiffer(LangFile(a));
  }

  /** `local_langs`: the names of the grammar files present. */
  function LocalLangs(files: map<string, string>): (r: set<string>) {
    set k | k in files && IsLangFile(k) :: LangName(k)
  }

  /** `local_themes`: the names of the theme files present. */
  function LocalThemes(files: map<string, string>): (r: set<string>) {
    set k | k in files && IsThemeFile(k) :: ThemeName(k)
  }

  /** A name is local exactly when its file is present. */
  lemma LocalLangsExact(files: map<string, string>, name: string)
    ensures name in LocalLangs(files) <==> LangFile(name) in files
  {
    LangFileRoundTrip(name, "");
    if name in LocalLangs(files) {
      var k :| k in files && IsLangFile(k) && LangName(k) == name;
      LangFileRoundTrip(name, k);
    }
  }

  lemma LocalThemesExact(files: map<string, string>, name: string)
    ensures name in LocalThemes(files) <==> ThemeFile(name) in files
  {
    ThemeFileRoundTrip(name, "");
    if name in LocalThemes(files) {
      var k :| k in files && IsThemeFile(k) && ThemeName(k) == name;
      ThemeFileRoundTrip(name, k);
    }
  }

  // ---------------------------------------------------------------------
  // Staleness
  // ---------------------------------------------------------------------

  /** The local dependencies of the grammar file of `n`. */
  function Deps(files: map<string, string>, n: string): (r: seq<string>)
    requires LangFile(n) in files
  {
    LocalDeps(files[LangFile(n)])
  }

  /** The grammar of `n` is present and has no unrewritten `.mjs` import
      left. */
  predicate Good(files: map<string, string>, n: string) {
    LangFile(n) in files && SearchImport(files[LangFile(n)]).None?
  }

  /** A walk along local imports through good grammars. */
  predicate GoodPath(files: map<string, string>, path: seq<string>) {
    |path| >= 1
    && forall i :: 0 <= i < |path| - 1 ==> Good(files, path[i]) && path[i + 1] in Deps(files, path[i])
  }

  /** What `needs_redownload(name)` decides: some grammar reachable from
      `name` along local imports of good grammars is missing or broken. */
  ghost predicate Stale(files: map<string, string>, name: string) {
    exists path :: GoodPath(files, path) && path[0] == name && !Good(files, path[|path| - 1])
  }

  /** A set of good grammars whose local imports stay inside it. */
  ghost predicate Closed(files: map<string, string>, s: set<string>) {
    forall n :: n in s ==> Good(files, n) && forall d :: d in Deps(files, n) ==> d in s
  }

  lemma {:induction false} PathStaysIn(files: map<string, string>, s: set<string>, path: seq<string>, i: nat)
    requires Closed(files, s) && GoodPath(files, path) && path[0] in s && i < |path|
    ensures path[i] in s
    decreases i
  {
    if i > 0 {
      PathStaysIn(files, s, path, i - 1);
    }
  }

  /** A name inside a closed set is not stale. */
  lemma ClosedNotStale(files: map<string, string>, s: set<string>, name: string)
    requires Closed(files, s) && name in s
    ensures !Stale(files, name)
  {
    forall path | GoodPath(files, path) && path[0] == name
      ensures Good(files, path[|path| - 1])
    {
      PathStaysIn(files, s, path, |path| - 1);
    }
  }

  /** Every name a file imports, over all files. */
  function AllDeps(files: map<string, string>): (r: set<string>) {
    set k, d | k in files && d in LocalDeps(files[k]) :: d
  }

  ghost predicate ReachedFrom(files: map<string, string>, name: string, n: string) {
    exists path :: GoodPath(files, path) && path[0] == name && path[|path| - 1] == n
  }

  lemma ExtendPath(files: map<string, string>, path: seq<string>, d: string)
    requires GoodPath(files, path) && Good(files, path[|path| - 1])
    requires d in Deps(files, path[|path| - 1])
    ensures GoodPath(files, path + [d]) && (path + [d])[0] == path[0]
  {
    var p := path + [d];
    forall i | 0 <= i < |p| - 1 ensures Good(files, p[i]) && p[i + 1] in Deps(files, p[i]) {
      if i < |path| - 1 {
        assert p[i] == path[i] && p[i + 1] == path[i + 1];
      } else {
        assert p[i] == path[|path| - 1] && p[i + 1] == d;
      }
    }
  }

  /** A name that is not stale has a closed set around it: the grammars
      reachable from it. */
  lemma NotStaleClosed(files: map<string, string>, name: string)
    requires !Stale(files, name)
    ensures exists s :: Closed(files, s) && name in s
  {
    var u := {name} + AllDeps(files);
    var s := set n | n in u && ReachedFrom(files, name, n);
    assert GoodPath(files, [name]);
    assert name in s;
    forall n | n in s ensures Good(files, n) && forall d :: d in Deps(files, n) ==> d in s {
      var path :| GoodPath(files, path) && path[0] == name && path[|path| - 1] == n;
      assert Good(files, n);
      forall d | d in Deps(files, n) ensures d in s {
        ExtendPath(files, path, d);
        assert (path + [d])[|path + [d]| - 1] == d;
        assert d in AllDeps(files);
      }
    }
    assert Closed(files, s);
  }

  /** A grammar whose local import has no file is stale, and so is every
      grammar that reaches it: `needs_redownload` sends the parent of a
      failed dependency to be downloaded again. */
  lemma MissingDepStale(files: map<string, string>, parent: string, dep: string)
    requires Good(files, parent) && dep in Deps(files, parent) && LangFile(dep) !in files
    ensures Stale(files, parent)
  {
    var path := [parent, dep];
    assert GoodPath(files, path);
    assert !Good(files, path[|path| - 1]);
  }

  /** A missing or broken grammar is stale itself. */
  lemma BadIsStale(files: map<string, string>, name: string)
    requires !Good(files, name)
    ensures Stale(files, name)
  {
    assert GoodPath(files, [name]);
  }

  /** Staleness passes up an import: a good grammar that imports a stale
      one is stale. */
  lemma StaleUpward(files: map<string, string>, parent: string, dep: string)
    requires Good(files, parent) && dep in Deps(files, parent) && Stale(files, dep)
    ensures Stale(files, parent)
  {
    var path :| GoodPath(files, path) && path[0] == dep && !Good(files, path[|path| - 1]);
    var p := [parent] + path;
    forall i | 0 <= i < |p| - 1 ensures Good(files, p[i]) && p[i + 1] in Deps(files, p[i]) {
      if i > 0 {
        assert p[i] == path[i - 1] && p[i + 1] == path[i];
      }
    }
    assert GoodPath(files, p) && p[|p| - 1] == path[|path| - 1];
  }

  // ---------------------------------------------------------------------
  // The walk of needs_redownload
  // ---------------------------------------------------------------------

  /** Every name the walk can meet. */
  function WalkBound(files: map<string, string>, name: string): (r: set<string>) {
    {name} + AllDeps(files)
  }

  /** What holds between two rounds of the walk: the visited grammars are
      good and their imports are visited or waiting on the stack, and every
      name on the stack is reached from `name` through good grammars. */
  ghost predicate Walk(files: map<string, string>, name: string, seen: set<string>, stack: seq<string>) {
    (forall n :: n in seen ==> Good(files, n) && n in WalkBound(files, name))
    && (forall n :: n in seen ==> forall d :: d in Deps(files, n) ==> d in seen || d in stack)
    && (forall i :: 0 <= i < |stack| ==> ReachedFrom(files, name, stack[i]) && stack[i] in WalkBound(files, name))
    && (name in seen || name in stack)
  }

  lemma WalkStart(files: map<string, string>, name: string)
    ensures Walk(files, name, {}, [name])
  {
    assert GoodPath(files, [name]);
  }

  /** Popping a visited name. */
  lemma WalkSkip(files: map<string, string>, name: string, seen: set<string>, stack: seq<string>)
    requires Walk(files, name, seen, stack) && stack != [] && stack[|stack| - 1] in seen
    ensures Walk(files, name, seen, stack[..|stack| - 1])
  {
    DropLast(stack);
  }

  /** Visiting a good grammar pushes its imports. */
  lemma WalkVisit(files: map<string, string>, name: string, seen: set<string>, stack: seq<string>)
    requires Walk(files, name, seen, stack) && stack != []
    requires stack[|stack| - 1] !in seen && Good(files, stack[|stack| - 1])
    ensures var lang := stack[|stack| - 1];
      Walk(files, name, seen + {lang}, stack[..|stack| - 1] + Deps(files, lang))
  {
    var lang := stack[|stack| - 1];
    var next := stack[..|stack| - 1] + Deps(files, lang);
    DropLast(stack);
    VisitReaches(files, name, seen, stack);
    VisitCovers(files, name, seen, stack);
    assert name in seen + {lang} || name in next;
  }

  /** Every name on the stack after a visit is reached from `name`. */
  lemma VisitReaches(files: map<string, string>, name: string, seen: set<string>, stack: seq<string>)
    requires Walk(files, name, seen, stack) && stack != [] && Good(files, stack[|stack| - 1])
    ensures var next := stack[..|stack| - 1] + Deps(files, stack[|stack| - 1]);
      forall i :: 0 <= i < |next| ==> ReachedFrom(files, name, next[i]) && next[i] in WalkBound(files, name)
  {
    var lang := stack[|stack| - 1];
    var rest := stack[..|stack| - 1];
    var deps := Deps(files, lang);
    var next := rest + deps;
    DropLast(stack);
    assert ReachedFrom(files, name, stack[|stack| - 1]);
    var path :| GoodPath(files, path) && path[0] == name && path[|path| - 1] == lang;
    forall d | d in deps ensures ReachedFrom(files, name, d) && d in WalkBound(files, name) {
      ExtendPath(files, path, d);
      assert (path + [d])[|path + [d]| - 1] == d;
      assert d in AllDeps(files);
    }
    forall i | 0 <= i < |next| ensures ReachedFrom(files, name, next[i]) && next[i] in WalkBound(files, name) {
      if i < |rest| {
        assert next[i] == stack[i];
      } else {
        assert next[i] == deps[i - |rest|];
      }
    }
  }

  /** After a visit the imports of every visited grammar are visited or
      on the stack. */
  lemma VisitCovers(files: map<string, string>, name: string, seen: set<string>, stack: seq<string>)
    requires Walk(files, name, seen, stack) && stack != [] && Good(files, stack[|stack| - 1])
    ensures var lang := stack[|stack| - 1];
      var next := stack[..|stack| - 1] + Deps(files, lang);
      forall n :: n in seen + {lang} ==> forall d :: d in Deps(files, n) ==> d in seen + {lang} || d in next
  {
    var lang := stack[|stack| - 1];
    var next := stack[..|stack| - 1] + Deps(files, lang);
    DropLast(stack);
    forall n | n in seen + {lang} ensures forall d :: d in Deps(files, n) ==> d in seen + {lang} || d in next {
      forall d | d in Deps(files, n) ensures d in seen + {lang} || d in next {
        if n != lang && d !in seen && d != lang {
          assert d in stack;
          var i :| 0 <= i < |stack| && stack[i] == d;
          assert next[i] == d;
        }
      }
    }
  }

  /** Meeting a missing or broken grammar. */
  lemma WalkFound(files: map<string, string>, name: string, seen: set<string>, stack: seq<string>)
    requires Walk(files, name, seen, stack) && stack != [] && !Good(files, stack[|stack| - 1])
    ensures Stale(files, name)
  {
    assert ReachedFrom(files, name, stack[|stack| - 1]);
  }

  /** An empty stack: the visited grammars are closed. */
  lemma WalkDone(files: map<string, string>, name: string, seen: set<string>)
    requires Walk(files, name, seen, [])
    ensures !Stale(files, name)
  {
    ClosedNotStale(files, seen, name);
  }
}
