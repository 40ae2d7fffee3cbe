/** The card renderer's configuration (src/markdown.ts): the reserved
    plain-text language names, the built-in defaults and `normalizeConfig`. */
module MarkdownConfig {
  import opened Common

  datatype Themes = Themes(light: string, dark: string)

  datatype Config = Config(
    languages: seq<string>,
    availableLanguages: seq<string>,
    themes: Themes,
    cardless: bool)

  /** A parsed configuration object as the card delivers it: every field
      may be missing, and list entries or theme names may be null. */
  datatype PartialThemes = PartialThemes(light: Option<string>, dark: Option<string>)

  datatype PartialConfig = PartialConfig(
    languages: Option<seq<Option<string>>>,
    availableLanguages: Option<seq<Option<string>>>,
    themes: Option<PartialThemes>,
    cardless: Option<bool>)

  /** Names the highlighter always understands as plain text. */
  const BuiltinTextLanguages: set<string> := {"text", "txt", "plain", "plaintext"}

  predicate IsBuiltinTextLanguage(name: string) {
    Lower(name) in BuiltinTextLanguages
  }

  /** No configuration means no language modules and the vitesse pair. */
  const DefaultConfig: Config :=
    Config([], [], Themes("vitesse-light", "vitesse-dark"), false)

  /** A name as it survives trimming: non-empty, no white space at either end. */
  predicate IsCleanName(x: string) {
    x != [] && !IsSpace(JavaScript, x[0]) && !IsSpace(JavaScript, x[|x| - 1])
  }

  /** The list entry `e` is a name that trims to `x`. */
  predicate EntryTrimsTo(e: Option<string>, x: string) {
    e.Some? && Trim(JavaScript, e.value) == x
  }

  /** Some entry of `raw` trims to `x`. */
  ghost predicate TrimsTo(raw: seq<Option<string>>, x: string) {
    exists i :: 0 <= i < |raw| && EntryTrimsTo(raw[i], x)
  }

  /** `list.map(l => l?.trim()).filter(l => !!l)`. */
  function TrimmedNonEmpty(raw: seq<Option<string>>): (r: seq<string>)
    ensures forall i :: 0 <= i < |r| ==> IsCleanName(r[i])
  {
    if raw == [] then []
    else
      var rest := TrimmedNonEmpty(raw[1..]);
      match raw[0]
      case None => rest
      case Some(s) =>
        var t := Trim(JavaScript, s);
        if t == "" then rest else [t] + rest
  }

  lemma {:induction false} TrimmedNonEmptyMembers(raw: seq<Option<string>>, x: string)
    ensures x in TrimmedNonEmpty(raw) <==> x != "" && TrimsTo(raw, x)
  {
    if raw != [] {
      TrimmedNonEmptyMembers(raw[1..], x);
      TrimmedNonEmptyStep(raw, x);
      TrimsToStep(raw, x);
    }
  }

  lemma TrimmedNonEmptyStep(raw: seq<Option<string>>, x: string)
    requires raw != []
    ensures x in TrimmedNonEmpty(raw) <==>
      x in TrimmedNonEmpty(raw[1..]) || (raw[0].Some? && x != "" && Trim(JavaScript, raw[0].value) == x)
  {
  }

  lemma TrimsToStep(raw: seq<Option<string>>, x: string)
    requires raw != []
    ensures TrimsTo(raw, x) <==>
      TrimsTo(raw[1..], x) || EntryTrimsTo(raw[0], x)
  {
    if TrimsTo(raw[1..], x) {
      var i :| 0 <= i < |raw[1..]| && EntryTrimsTo(raw[1..][i], x);
      assert raw[i + 1] == raw[1..][i];
    }
    if TrimsTo(raw, x) {
      var i :| 0 <= i < |raw| && EntryTrimsTo(raw[i], x);
      if i > 0 { assert raw[1..][i - 1] == raw[i]; }
    }
  }

  /** The first entry of `raw` that trims to `x`. */
  ghost function FirstTrimIndex(raw: seq<Option<string>>, x: string): (k: nat)
    requires TrimsTo(raw, x)
    ensures k < |raw| && EntryTrimsTo(raw[k], x)
    ensures forall j :: 0 <= j < k ==> !EntryTrimsTo(raw[j], x)
  {
    FirstWhere(raw, e => EntryTrimsTo(e, x))
  }


  /** An entry that does not trim to `x` only shifts its first one. */
  lemma FirstTrimIndexTail(raw: seq<Option<string>>, x: string)
    requires TrimsTo(raw, x) && !EntryTrimsTo(raw[0], x)
    ensures TrimsTo(raw[1..], x)
    ensures FirstTrimIndex(raw, x) == 1 + FirstTrimIndex(raw[1..], x)
  {
    var k := FirstTrimIndex(raw, x);
    assert raw[1..][k - 1] == raw[k];
    var k1 := FirstTrimIndex(raw[1..], x);
    assert raw[k1 + 1] == raw[1..][k1];
  }


  /** Trimming and dropping empty names keeps the order of first
      appearance: a name that first shows up earlier among the trimmed
      names first shows up earlier in `raw`. */
  lemma {:induction false} TrimmedNonEmptyOrder(raw: seq<Option<string>>, x: string, y: string)
    requires x in TrimmedNonEmpty(raw) && y in TrimmedNonEmpty(raw)
    requires FirstIndex(TrimmedNonEmpty(raw), x) < FirstIndex(TrimmedNonEmpty(raw), y)
    ensures TrimsTo(raw, x) && TrimsTo(raw, y)
    ensures FirstTrimIndex(raw, x) < FirstTrimIndex(raw, y)
  {
    TrimmedNonEmptyMembers(raw, x);
    TrimmedNonEmptyMembers(raw, y);
    var cands := TrimmedNonEmpty(raw);
    var rest := TrimmedNonEmpty(raw[1..]);
    var t := if raw[0].Some? then Trim(JavaScript, raw[0].value) else "";
    if t != "" && x == t {
      assert EntryTrimsTo(raw[0], x) && !EntryTrimsTo(raw[0], y);
    } else {
      if t != "" {
        assert cands == [t] + rest;
        assert y != t;
      }
      assert x in rest && y in rest;
      assert FirstIndex(cands, x) == (if t != "" then 1 else 0) + FirstIndex(rest, x);
      assert FirstIndex(cands, y) == (if t != "" then 1 else 0) + FirstIndex(rest, y);
      TrimmedNonEmptyOrder(raw[1..], x, y);
      FirstTrimIndexTail(raw, x);
      FirstTrimIndexTail(raw, y);
    }
  }

  /** The trimmed, non-empty, de-duplicated names of an optional list. */
  function CleanNames(raw: Option<seq<Option<string>>>): (r: seq<string>)
    ensures NoDuplicates(r)
    ensures forall i :: 0 <= i < |r| ==> IsCleanName(r[i])
    ensures forall x :: x in r <==> (raw.Some? && x != "" && TrimsTo(raw.value, x))
  {
    var cands := if raw.Some? then TrimmedNonEmpty(raw.value) else [];
    assert forall x :: x in cands <==> (raw.Some? && x != "" && TrimsTo(raw.value, x)) by {
      forall x ensures x in cands <==> (raw.Some? && x != "" && TrimsTo(raw.value, x)) {
        if raw.Some? { TrimmedNonEmptyMembers(raw.value, x); }
      }
    }
    var r := Dedup(cands);
    assert forall x :: x in r <==> x in cands by {
      forall x ensures x in r <==> x in cands {
        if x in r { var i :| 0 <= i < |r| && r[i] == x; }
        if x in cands { var i :| 0 <= i < |cands| && cands[i] == x; }
      }
    }
    r
  }
  /** `Array.from(new Set(...))` keeps the order of first appearance: of
      two clean names, the one listed first is the one whose first raw
      entry comes first. */
  lemma CleanNamesOrder(raw: Option<seq<Option<string>>>, i: nat, j: nat)
    requires raw.Some? && i < j < |CleanNames(raw)|
    ensures TrimsTo(raw.value, CleanNames(raw)[i]) && TrimsTo(raw.value, CleanNames(raw)[j])
    ensures FirstTrimIndex(raw.value, CleanNames(raw)[i]) < FirstTrimIndex(raw.value, CleanNames(raw)[j])
  {
    var cands := TrimmedNonEmpty(raw.value);
    DedupFirstOccurrenceOrder(cands, i, j);
    TrimmedNonEmptyOrder(raw.value, Dedup(cands)[i], Dedup(cands)[j]);
  }


  /** `normalizeConfig`: an absent configuration is exactly the default;
      otherwise both lists are cleaned and every other field falls back to
      its default on its own. */
  function NormalizeConfig(config: Option<PartialConfig>): (r: Config)
    ensures config.None? ==> r == DefaultConfig
    ensures config.Some? ==>
      r.languages == CleanNames(config.value.languages)
      && r.availableLanguages == CleanNames(config.value.availableLanguages)
    ensures config.Some? ==>
      var t := config.value.themes;
      r.themes.light == (if t.Some? && t.value.light.Some? then t.value.light.value else "vitesse-light")
      && r.themes.dark == (if t.Some? && t.value.dark.Some? then t.value.dark.value else "vitesse-dark")
    ensures config.Some? ==>
      r.cardless == (config.value.cardless.Some? && config.value.cardless.value)
  {
    match config
    case None => DefaultConfig
    case Some(c) =>
      var langs := CleanNames(c.languages);
      Config(
        if |langs| > 0 then langs else DefaultConfig.languages,
        CleanNames(c.availableLanguages),
        Themes(
          match c.themes { case Some(t) => (match t.light { case Some(l) => l case None => DefaultConfig.themes.light })
                           case None => DefaultConfig.themes.light },
          match c.themes { case Some(t) => (match t.dark { case Some(d) => d case None => DefaultConfig.themes.dark })
                           case None => DefaultConfig.themes.dark }),
        match c.cardless { case Some(b) => b case None => DefaultConfig.cardless })
  }

  /** A list of names as a list of present entries. */
  function Present(names: seq<string>): (r: seq<Option<string>>)
    ensures |r| == |names|
  {
    if names == [] then [] else [Some(names[0])] + Present(names[1..])
  }

  /** A normalised configuration, handed back as input. */
  function AsPartial(c: Config): PartialConfig {
    PartialConfig(
      Some(Present(c.languages)),
      Some(Present(c.availableLanguages)),
      Some(PartialThemes(Some(c.themes.light), Some(c.themes.dark))),
      Some(c.cardless))
  }

  /** Cleaning a list that is already clean gives it back unchanged. */
  lemma {:induction false} TrimmedNonEmptyOfClean(names: seq<string>)
    requires forall i :: 0 <= i < |names| ==> IsCleanName(names[i])
    ensures TrimmedNonEmpty(Present(names)) == names
  {
    if names != [] {
      PresentStep(names);
      TrimmedNonEmptyOfClean(names[1..]);
      TrimOfTrimmed(JavaScript, names[0]);
    }
  }

  lemma PresentStep(names: seq<string>)
    requires names != []
    ensures var raw := Present(names);
      raw != [] && raw[0] == Some(names[0]) && raw[1..] == Present(names[1..])
  {
    assert Present(names) == [Some(names[0])] + Present(names[1..]);
  }

  /** Normalisation is idempotent: feeding a normalised configuration back
      through `normalizeConfig` changes nothing. */
  lemma NormalizeIdempotent(config: Option<PartialConfig>)
    ensures NormalizeConfig(Some(AsPartial(NormalizeConfig(config)))) == NormalizeConfig(config)
  {
    var c := NormalizeConfig(config);
    CleanNamesOfClean(c.languages);
    CleanNamesOfClean(c.availableLanguages);
  }

  /** A list that is already clean and free of duplicates comes back as it is. */
  lemma CleanNamesOfClean(names: seq<string>)
    requires NoDuplicates(names) && forall i :: 0 <= i < |names| ==> IsCleanName(names[i])
    ensures CleanNames(Some(Present(names))) == names
  {
    TrimmedNonEmptyOfClean(names);
    DedupOfDistinct(names);
  }

  // A worked example, built up from the tail of the list.

  lemma ExampleTrimPadded()
    ensures Trim(JavaScript, " c ") == "c"
  {
    assert " c "[1..] == "c ";
    assert "c "[..1] == "c";
  }

  lemma ExampleCleanTail()
    ensures TrimmedNonEmpty([Some("js"), Some("c")]) == ["js", "c"]
  {
    var r := [Some("js"), Some("c")];
    assert r[1..] == [Some("c")];
    assert r[1..][1..] == [];
    TrimOfTrimmed(JavaScript, "c");
    TrimOfTrimmed(JavaScript, "js");
  }

  lemma ExampleSkipMissing()
    ensures TrimmedNonEmpty([None, Some(""), Some("js"), Some("c")]) == ["js", "c"]
  {
    var r := [None, Some(""), Some("js"), Some("c")];
    ExampleCleanTail();
    assert r[1..][1..] == [Some("js"), Some("c")];
  }

  lemma ExampleTrimmed()
    ensures TrimmedNonEmpty([Some(" c "), None, Some(""), Some("js"), Some("c")]) == ["c", "js", "c"]
  {
    var r := [Some(" c "), None, Some(""), Some("js"), Some("c")];
    ExampleSkipMissing();
    ExampleTrimPadded();
    assert r[0] == Some(" c ");
    assert r[1..] == [None, Some(""), Some("js"), Some("c")];
    assert ["c"] + ["js", "c"] == ["c", "js", "c"];
  }

  lemma ExampleDedup()
    ensures Dedup(["c", "js", "c"]) == ["c", "js"]
  {
    var d := ["c", "js", "c"];
    assert d[..2] == ["c", "js"];
    assert ["c", "js"][..1] == ["c"];
    assert ["c"][..0] == [];
  }

  /** Padding, null entries and empty names disappear; of the duplicates
      only the first occurrence stays. */
  lemma NormalizeExample()
    ensures NormalizeConfig(Some(PartialConfig(Some([Some(" c "), None, Some(""), Some("js"), Some("c")]),
                                               None, None, None))).languages == ["c", "js"]
  {
    ExampleTrimmed();
    ExampleDedup();
  }
}
