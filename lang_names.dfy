/** The build-time catalogue of scripts/prepare.ts and scripts/generate.ts:
    the set of every bundled language id and alias, its sorted list
    (`languageNames`), the sorted theme ids, the validation of the
    configured default languages and themes against them, and the lookup of
    the highlighter's version in package.json. */
module LanguageCatalogue {
  import opened Common

  /** One entry of `bundledLanguagesInfo`; `aliases` is `None` where the
      entry has no `aliases` array. */
  datatype LanguageInfo = LanguageInfo(id: string, aliases: Option<seq<string>>)

  /** `n` is the id or one of the aliases of `info`. */
  predicate Names(info: LanguageInfo, n: string) {
    n == info.id || (info.aliases.Some? && n in info.aliases.value)
  }

  /** The nested loops that fill `allLanguages`. The set is kept as the
      sequence of its elements in insertion order, the order in which
      `[...allLanguages]` spreads it. */
  method AllLanguages(infos: seq<LanguageInfo>) returns (names: seq<string>)
    ensures NoDuplicates(names)
    ensures forall n :: n in names <==> exists i :: 0 <= i < |infos| && Names(infos[i], n)
  {
    names := [];
    for i := 0 to |infos|
      invariant NoDuplicates(names)
      invariant forall n :: n in names <==> exists j :: 0 <= j < i && Names(infos[j], n)
    {
      var info := infos[i];
      names := Add(names, info.id);
      if info.aliases.Some? {
        var aliases := info.aliases.value;
        for k := 0 to |aliases|
          invariant NoDuplicates(names)
          invariant forall n :: n in names <==>
            (exists j :: 0 <= j < i && Names(infos[j], n)) || n == info.id || n in aliases[..k]
        {
          names := Add(names, aliases[k]);
        }
        assert aliases[..|aliases|] == aliases;
      }
    }
  }

  /** `Set.prototype.add` on the insertion-ordered elements. */
  function Add(names: seq<string>, n: string): (r: seq<string>)
    requires NoDuplicates(names)
    ensures NoDuplicates(r)
    ensures forall m :: m in r <==> m in names || m == n
    ensures names <= r
  {
    if n in names then names else names + [n]
  }

  // ---------------------------------------------------------------------
  // `Array.prototype.sort` without a comparator: code-unit order
  // ---------------------------------------------------------------------

  /** `a < b` for JavaScript strings: the first differing character
      decides, and a proper prefix comes first. */
  predicate Before(a: string, b: string) {
    if a == [] then b != []
    else if b == [] then false
    else if a[0] != b[0] then a[0] < b[0]
    else Before(a[1..], b[1..])
  }

  lemma {:induction false} BeforeIrreflexive(a: string)
    ensures !Before(a, a)
  {
    if a != [] {
      BeforeIrreflexive(a[1..]);
    }
  }

  lemma {:induction false} BeforeTotal(a: string, b: string)
    ensures a == b || Before(a, b) || Before(b, a)
  {
    if a != [] && b != [] && a[0] == b[0] {
      BeforeTotal(a[1..], b[1..]);
      if a[1..] == b[1..] {
        assert a == [a[0]] + a[1..] && b == [b[0]] + b[1..];
      }
    }
  }

  lemma {:induction false} BeforeTransitive(a: string, b: string, c: string)
    requires Before(a, b) && Before(b, c)
    ensures Before(a, c)
  {
    if a != [] && a[0] == b[0] && b[0] == c[0] {
      BeforeTransitive(a[1..], b[1..], c[1..]);
    }
  }

  predicate Sorted(s: seq<string>) {
    forall i, j :: 0 <= i < j < |s| ==> !Before(s[j], s[i])
  }

  /** Puts `x` after every element that is not after it. */
  function Insert(s: seq<string>, x: string): (r: seq<string>)
    requires Sorted(s)
    ensures Sorted(r)
    ensures multiset(r) == multiset(s) + multiset{x}
  {
    if s == [] then [x]
    else if Before(x, s[0]) then
      assert forall j :: 0 <= j < |s| ==> !Before(s[j], x) by {
        forall j | 0 <= j < |s| ensures !Before(s[j], x) {
          if Before(s[j], x) {
            BeforeTransitive(s[j], x, s[0]);
            BeforeIrreflexive(s[0]);
          }
        }
      }
      [x] + s
    else
      var rest := Insert(s[1..], x);
      assert multiset(s) == multiset{s[0]} + multiset(s[1..]) by {
        assert s == [s[0]] + s[1..];
      }
      assert forall j :: 0 <= j < |rest| ==> !Before(rest[j], s[0]) by {
        forall j | 0 <= j < |rest| ensures !Before(rest[j], s[0]) {
          assert rest[j] in multiset(rest);
          assert rest[j] == x || rest[j] in s[1..];
          if rest[j] != x {
            var m :| 1 <= m < |s| && s[m] == rest[j];
          }
        }
      }
      [s[0]] + rest
  }

  /** `[...s].sort()`: an insertion sort stands for the engine's sort; with
      a total order every sort gives this same result. */
  function Sort(s: seq<string>): (r: seq<string>)
    ensures Sorted(r)
    ensures multiset(r) == multiset(s)
  {
    if s == [] then []
    else
      assert s == s[..|s| - 1] + [s[|s| - 1]];
      Insert(Sort(s[..|s| - 1]), s[|s| - 1])
  }

  /** A sorted sequence without duplicates is strictly increasing. */
  lemma SortedDistinct(s: seq<string>)
    requires Sorted(s) && NoDuplicates(s)
    ensures forall i, j :: 0 <= i < j < |s| ==> Before(s[i], s[j])
  {
    forall i, j | 0 <= i < j < |s| ensures Before(s[i], s[j]) {
      BeforeTotal(s[i], s[j]);
    }
  }

  lemma DistinctByMultiset(s: seq<string>, t: seq<string>)
    requires NoDuplicates(s) && multiset(s) == multiset(t)
    ensures NoDuplicates(t)
  {
    forall i, j | 0 <= i < j < |t| ensures t[i] != t[j] {
      if t[i] == t[j] {
        var x := t[i];
        assert t == t[..j] + [t[j]] + t[j + 1..];
        assert t[..j] == t[..i] + [t[i]] + t[i + 1..j];
        assert multiset(t)[x] >= 2;
        CountAtMostOne(s, x);
      }
    }
  }

  lemma {:induction false} CountAtMostOne(s: seq<string>, x: string)
    requires NoDuplicates(s)
    ensures multiset(s)[x] <= 1
    decreases |s|
  {
    if s != [] {
      assert s == [s[0]] + s[1..];
      assert NoDuplicates(s[1..]);
      CountAtMostOne(s[1..], x);
      if s[0] == x {
        assert x !in s[1..];
      }
    }
  }

  /** `languageNames`: every bundled id and alias once, in increasing
      order. */
  method LanguageNames(infos: seq<LanguageInfo>) returns (all: seq<string>, sorted: seq<string>)
    ensures forall n :: n in all <==> exists i :: 0 <= i < |infos| && Names(infos[i], n)
    ensures forall n :: n in sorted <==> n in all
    ensures forall i, j :: 0 <= i < j < |sorted| ==> Before(sorted[i], sorted[j])
  {
    all := AllLanguages(infos);
    sorted := Sort(all);
    assert forall n :: n in sorted <==> n in multiset(sorted);
    DistinctByMultiset(all, sorted);
    SortedDistinct(sorted);
  }

  /** `themeNames`: the theme ids in increasing order. */
  function ThemeNames(themeIds: seq<string>): (r: seq<string>)
    ensures Sorted(r) && multiset(r) == multiset(themeIds)
  {
    Sort(themeIds)
  }

  // ---------------------------------------------------------------------
  // Validation of the configured defaults
  // ---------------------------------------------------------------------

  /** The outcome of the validation loops; an error ends the script. */
  datatype Verdict = Valid | UnknownLanguage(language: string) | UnknownTheme(theme: string)

  /** The two validation loops: the first unknown language ends the run;
      then light and dark, in this order, are looked up among the theme
      names. */
  method Validate(languages: seq<string>, known: seq<string>, light: string, dark: string,
                  themeNames: seq<string>) returns (v: Verdict)
    ensures v.Valid? <==>
      (forall i :: 0 <= i < |languages| ==> languages[i] in known)
      && light in themeNames && dark in themeNames
    ensures v.UnknownLanguage? ==>
      exists i :: 0 <= i < |languages| && languages[i] == v.language && languages[i] !in known
        && forall j :: 0 <= j < i ==> languages[j] in known
    ensures v.UnknownTheme? ==>
      (forall i :: 0 <= i < |languages| ==> languages[i] in known)
      && v.theme == (if light !in themeNames then light else dark)
      && v.theme !in themeNames
  {
    for i := 0 to |languages|
      invariant forall j :: 0 <= j < i ==> languages[j] in known
    {
      if languages[i] !in known {
        return UnknownLanguage(languages[i]);
      }
    }
    var themes := [light, dark];
    for k := 0 to 2
      invariant forall j :: 0 <= j < k ==> themes[j] in themeNames
    {
      if themes[k] !in themeNames {
        assert k == 1 ==> themes[0] == light && light in themeNames;
        return UnknownTheme(themes[k]);
      }
    }
    assert themes[0] in themeNames && themes[1] in themeNames;
    return Valid;
  }

  // ---------------------------------------------------------------------
  // The highlighter version (scripts/generate.ts)
  // ---------------------------------------------------------------------

  /** The entry `key` is missing (`undefined`) or the empty string. */
  predicate Falsy(deps: map<string, string>, key: string) {
    key !in deps || deps[key] == ""
  }

  /** `pkg.dependencies?.shiki || pkg.dependencies?.["@shikijs/core"]`,
      `None` when the script gives up ("Could not find shiki version").
      An empty string is falsy, so it counts as absent. */
  function ShikiVersion(dependencies: Option<map<string, string>>): (r: Option<string>)
    ensures r.Some? ==> r.value != "" && dependencies.Some?
    ensures r.Some? && "shiki" in dependencies.value && dependencies.value["shiki"] != "" ==>
      r.value == dependencies.value["shiki"]
    ensures r.Some? && !("shiki" in dependencies.value && dependencies.value["shiki"] != "") ==>
      "@shikijs/core" in dependencies.value && r.value == dependencies.value["@shikijs/core"]
    ensures r.None? <==>
      dependencies.None?
      || (Falsy(dependencies.value, "shiki") && Falsy(dependencies.value, "@shikijs/core"))
  {
    match dependencies
    case None => None
    case Some(deps) =>
      if "shiki" in deps && deps["shiki"] != "" then Some(deps["shiki"])
      else if "@shikijs/core" in deps && deps["@shikijs/core"] != "" then Some(deps["@shikijs/core"])
      else None
  }
}
