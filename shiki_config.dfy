/** The add-on configuration of anki_markdown/shiki.py: the defaults that
    `_load_default_config` derives from the shipped config.json, and
    `_normalize_config`, which sanitises the config Anki hands over. Parsed
    JSON is a value of `Json`; the data file `shiki-data.json` is the
    `Catalogue` of available language and theme names. */
module ShikiConfig {
  import opened Common
  import ShikiSync

  /** A parsed JSON value as Python's `json` module gives it. An object
      is its list of entries in document order; a key may appear more than
      once, and `Get` and `Keys` read it as the resulting dict does. */
  datatype Json =
    | JNull
    | JBool(b: bool)
    | JNumber(n: real)
    | JString(s: string)
    | JArray(items: seq<Json>)
    | JObject(entries: seq<(string, Json)>)

  /** `AVAILABLE_LANGS` and `AVAILABLE_THEMES`. */
  datatype Catalogue = Catalogue(languages: seq<string>, themes: seq<string>)

  /** The sanitised config. */
  datatype AddonConfig = AddonConfig(languages: seq<string>, light: string, dark: string, cardless: bool)

  /** What `cleanup` and `sync` read of it. */
  function StoreView(c: AddonConfig): (r: ShikiSync.StoreConfig)
    ensures r.languages == c.languages && r.light == c.light && r.dark == c.dark
  {
    ShikiSync.StoreConfig(c.languages, c.light, c.dark)
  }

  /** `d.get(key)` on the dict `json.loads` builds: when a key is given
      twice the later entry wins. */
  function Get(entries: seq<(string, Json)>, key: string): (r: Option<Json>)
    ensures r.Some? <==> exists i :: 0 <= i < |entries| && entries[i].0 == key
    decreases |entries|
  {
    if entries == [] then None
    else
      var n := |entries| - 1;
      if entries[n].0 == key then Some(entries[n].1)
      else
        var front := entries[..n];
        assert forall i :: 0 <= i < n ==> front[i] == entries[i];
        Get(front, key)
  }

  /** The value `Get` finds is the one of the last entry with that key. */
  lemma {:induction false} GetLastEntry(entries: seq<(string, Json)>, key: string)
    ensures var r := Get(entries, key);
      r.Some? ==>
        exists i :: 0 <= i < |entries| && entries[i] == (key, r.value)
          && (forall j :: i < j < |entries| ==> entries[j].0 != key)
    decreases |entries|
  {
    if entries != [] {
      var n := |entries| - 1;
      if entries[n].0 == key {
        assert entries[n] == (key, entries[n].1);
      } else {
        var front := entries[..n];
        GetLastEntry(front, key);
        if Get(entries, key).Some? {
          var i :| 0 <= i < |front| && front[i] == (key, Get(front, key).value)
            && (forall j :: i < j < |front| ==> front[j].0 != key);
          assert entries[i] == front[i];
          assert forall j :: i < j < |entries| ==> entries[j].0 != key by {
            forall j | i < j < |entries|
              ensures entries[j].0 != key
            {
              if j < n {
                assert entries[j] == front[j];
              }
            }
          }
        }
      }
    }
  }

  /** The keys of the dict `json.loads` builds, in the order of their
      first appearance. */
  function Keys(entries: seq<(string, Json)>): (r: seq<string>)
    ensures NoDuplicates(r)
    ensures forall k :: k in r <==> exists i :: 0 <= i < |entries| && entries[i].0 == k
  {
    var all := seq(|entries|, i requires 0 <= i < |entries| => entries[i].0);
    assert forall k :: k in all <==> exists i :: 0 <= i < |entries| && entries[i].0 == k by {
      forall k | k in all
        ensures exists i :: 0 <= i < |entries| && entries[i].0 == k
      {
        var i :| 0 <= i < |all| && all[i] == k;
      }
      forall k | exists i :: 0 <= i < |entries| && entries[i].0 == k
        ensures k in all
      {
        var i :| 0 <= i < |entries| && entries[i].0 == k;
        assert all[i] == k;
      }
    }
    var r := Dedup(all);
    assert forall k :: k in r <==> k in all by {
      forall k | k in r
        ensures k in all
      {
        var i :| 0 <= i < |r| && r[i] == k;
      }
      forall k | k in all
        ensures k in r
      {
        var i :| 0 <= i < |all| && all[i] == k;
      }
    }
    r
  }

  /** `bool(v)`: Python truthiness of a JSON value. */
  predicate Truthy(v: Json) {
    match v
    case JNull => false
    case JBool(b) => b
    case JNumber(n) => n != 0.0
    case JString(s) => s != ""
    case JArray(items) => items != []
    case JObject(entries) => entries != []
  }

  /** `config.get("cardless", False)` turned into a bool. */
  predicate Cardless(entries: seq<(string, Json)>) {
    match Get(entries, "cardless")
    case None => false
    case Some(v) => Truthy(v)
  }

  // ---------------------------------------------------------------------
  // _normalize_config
  // ---------------------------------------------------------------------

  /** The entries of the config, `{}` when it is not a dict. */
  function Entries(config: Json): (r: seq<(string, Json)>)
    ensures config.JObject? ==> r == config.entries
    ensures !config.JObject? ==> r == []
  {
    if config.JObject? then config.entries else []
  }

  /** The entries of `raw_langs` that the loop looks at: those of a list,
      none when the value is missing or not a list. */
  function LanguageItems(entries: seq<(string, Json)>): (r: seq<Json>) {
    match Get(entries, "languages")
    case Some(JArray(items)) => items
    case _ => []
  }

  /** The names the loop accepts: non-empty and available. */
  predicate Acceptable(cat: Catalogue, name: string) {
    name != "" && name in cat.languages
  }

  /** The stripped string entries of a list that are acceptable, in order
      and with repetitions. */
  function Candidates(cat: Catalogue, items: seq<Json>): (r: seq<string>)
    ensures |r| <= |items|
    decreases |items|
  {
    if items == [] then []
    else
      var rest := Candidates(cat, items[..|items| - 1]);
      var last := items[|items| - 1];
      if last.JString? && Acceptable(cat, Trim(Python, last.s)) then rest + [Trim(Python, last.s)] else rest
  }

  /** The languages that survive sanitising: stripped, non-empty,
      available, first occurrence kept. */
  function CleanLanguages(cat: Catalogue, items: seq<Json>): (r: seq<string>) {
    Dedup(Candidates(cat, items))
  }

  /** A theme entry that is an available theme name, or the default. */
  function ThemeOr(cat: Catalogue, entries: seq<(string, Json)>, key: string, fallback: string): (r: string)
    ensures r == fallback || r in cat.themes
  {
    match Get(entries, "themes")
    case Some(JObject(themes)) =>
      (match Get(themes, key)
       case Some(JString(s)) => if s in cat.themes then s else fallback
       case _ => fallback)
    case _ => fallback
  }

  lemma DedupSnoc<T>(s: seq<T>, x: T)
    ensures Dedup(s + [x]) == if x in s then Dedup(s) else Dedup(s) + [x]
  {
    assert (s + [x])[..|s + [x]| - 1] == s;
    if x in Dedup(s) {
      var i :| 0 <= i < |Dedup(s)| && Dedup(s)[i] == x;
    }
  }

  /** `_normalize_config(config)`, with `DEFAULT_CONFIG` as `defaults`. */
  method NormalizeConfig(cat: Catalogue, defaults: AddonConfig, config: Json) returns (r: AddonConfig)
    ensures var clean := CleanLanguages(cat, LanguageItems(Entries(config)));
      r.languages == if clean == [] then defaults.languages else clean
    ensures r.light == ThemeOr(cat, Entries(config), "light", defaults.light)
    ensures r.dark == ThemeOr(cat, Entries(config), "dark", defaults.dark)
    ensures r.cardless == Cardless(Entries(config))
  {
    var entries := if config.JObject? then config.entries else [];
    var rawLangs := Get(entries, "languages");
    var langs: seq<string> := [];
    var seen: set<string> := {};
    if rawLangs.Some? && rawLangs.value.JArray? {
      var items := rawLangs.value.items;
      assert items[..0] == [];
      var i := 0;
      while i < |items|
        invariant 0 <= i <= |items|
        invariant langs == Dedup(Candidates(cat, items[..i]))
        invariant forall x :: x in seen <==> x in Candidates(cat, items[..i])
        decreases |items| - i
      {
        var before := Candidates(cat, items[..i]);
        CandidatesStep(cat, items, i);
        var lang := items[i];
        i := i + 1;
        if !lang.JString? {
          continue;
        }
        var name := Trim(Python, lang.s);
        if name == "" || name !in cat.languages || name in seen {
          if Acceptable(cat, name) {
            DedupSnoc(before, name);
          }
          continue;
        }
        DedupSnoc(before, name);
        seen := seen + {name};
        langs := langs + [name];
      }
      assert items[..|items|] == items;
    }
    if langs == [] {
      langs := defaults.languages;
    }
    var rawThemes := Get(entries, "themes");
    var light := defaults.light;
    var dark := defaults.dark;
    if rawThemes.Some? && rawThemes.value.JObject? {
      var rawLight := Get(rawThemes.value.entries, "light");
      var rawDark := Get(rawThemes.value.entries, "dark");
      if rawLight.Some? && rawLight.value.JString? && rawLight.value.s in cat.themes {
        light := rawLight.value.s;
      }
      if rawDark.Some? && rawDark.value.JString? && rawDark.value.s in cat.themes {
        dark := rawDark.value.s;
      }
    }
    var cardless := Get(entries, "cardless");
    r := AddonConfig(langs, light, dark, cardless.Some? && Truthy(cardless.value));
    ThemeOrChoice(cat, entries, "light", defaults.light);
    ThemeOrChoice(cat, entries, "dark", defaults.dark);
    EntriesRead(cat, entries);
  }

  /** The `languages` and `cardless` entries as `_normalize_config` reads
      them. */
  lemma EntriesRead(cat: Catalogue, entries: seq<(string, Json)>)
    ensures var l := Get(entries, "languages");
      LanguageItems(entries) == if l.Some? && l.value.JArray? then l.value.items else []
    ensures var c := Get(entries, "cardless");
      Cardless(entries) == (c.Some? && Truthy(c.value))
    ensures CleanLanguages(cat, []) == []
  {
  }

  /** The theme entry `key` as the checks of `_normalize_config` read it. */
  lemma ThemeOrChoice(cat: Catalogue, entries: seq<(string, Json)>, key: string, fallback: string)
    ensures var t := Get(entries, "themes");
      ThemeOr(cat, entries, key, fallback) ==
        if t.Some? && t.value.JObject? && Get(t.value.entries, key).Some?
           && Get(t.value.entries, key).value.JString? && Get(t.value.entries, key).value.s in cat.themes
        then Get(t.value.entries, key).value.s
        else fallback
  {
  }

  lemma CandidatesStep(cat: Catalogue, items: seq<Json>, i: nat)
    requires i < |items|
    ensures Candidates(cat, items[..i + 1]) ==
      if items[i].JString? && Acceptable(cat, Trim(Python, items[i].s))
      then Candidates(cat, items[..i]) + [Trim(Python, items[i].s)]
      else Candidates(cat, items[..i])
  {
    assert items[..i + 1][..i] == items[..i];
  }

  // ---------------------------------------------------------------------
  // What sanitising guarantees
  // ---------------------------------------------------------------------

  /** A string with no white space at its ends. */
  predicate Stripped(s: string) {
    Trim(Python, s) == s
  }

  lemma StripStripped(s: string)
    ensures Stripped(Trim(Python, s))
  {
    TrimOfTrimmed(Python, Trim(Python, s));
  }

  /** A config the store can work with: distinct, stripped, available
      languages and available themes. */
  predicate Normal(cat: Catalogue, c: AddonConfig) {
    NoDuplicates(c.languages)
    && (forall i :: 0 <= i < |c.languages| ==> Acceptable(cat, c.languages[i]) && Stripped(c.languages[i]))
    && c.light in cat.themes && c.dark in cat.themes
  }

  /** Each candidate is stripped and acceptable. */
  lemma {:induction false} CandidatesSound(cat: Catalogue, items: seq<Json>)
    ensures forall i :: 0 <= i < |Candidates(cat, items)| ==>
      Acceptable(cat, Candidates(cat, items)[i]) && Stripped(Candidates(cat, items)[i])
    decreases |items|
  {
    if items != [] {
      var p := items[..|items| - 1];
      var last := items[|items| - 1];
      CandidatesSound(cat, p);
      CandidatesSnoc(cat, items);
      if last.JString? {
        StripStripped(last.s);
      }
    }
  }

  /** Each string entry whose stripped form is acceptable is a candidate. */
  lemma CandidatesComplete(cat: Catalogue, items: seq<Json>)
    ensures forall i :: 0 <= i < |items| && items[i].JString? && Acceptable(cat, Trim(Python, items[i].s)) ==>
      Trim(Python, items[i].s) in Candidates(cat, items)
  {
    forall i | 0 <= i < |items| && items[i].JString? && Acceptable(cat, Trim(Python, items[i].s))
      ensures Trim(Python, items[i].s) in Candidates(cat, items)
    {
      CandidateAt(cat, items, i, Trim(Python, items[i].s));
    }
  }

  lemma {:induction false} CandidateAt(cat: Catalogue, items: seq<Json>, i: nat, name: string)
    requires i < |items| && items[i].JString? && name == Trim(Python, items[i].s) && Acceptable(cat, name)
    ensures name in Candidates(cat, items)
    decreases |items|
  {
    var p := items[..|items| - 1];
    var last := items[|items| - 1];
    CandidatesSnoc(cat, items);
    if i < |p| {
      assert p[i] == items[i];
      CandidateAt(cat, p, i, name);
      if last.JString? && Acceptable(cat, Trim(Python, last.s)) {
        InSnoc(Candidates(cat, p), Trim(Python, last.s), name);
      }
    } else {
      InSnoc(Candidates(cat, p), name, name);
    }
  }

  /** The last item adds its stripped form or nothing. */
  lemma CandidatesSnoc(cat: Catalogue, items: seq<Json>)
    requires items != []
    ensures var last := items[|items| - 1];
      Candidates(cat, items) ==
        if last.JString? && Acceptable(cat, Trim(Python, last.s))
        then Candidates(cat, items[..|items| - 1]) + [Trim(Python, last.s)]
        else Candidates(cat, items[..|items| - 1])
  {
  }

  /** The languages that survive are distinct, stripped and available, and
      every string entry whose stripped form is a non-empty available name
      survives. */
  lemma CleanLanguagesSound(cat: Catalogue, items: seq<Json>)
    ensures var r := CleanLanguages(cat, items);
      NoDuplicates(r)
      && (forall i :: 0 <= i < |r| ==> Acceptable(cat, r[i]) && Stripped(r[i]))
      && (forall i :: 0 <= i < |items| && items[i].JString? && Acceptable(cat, Trim(Python, items[i].s)) ==>
            Trim(Python, items[i].s) in r)
  {
    var c := Candidates(cat, items);
    CandidatesSound(cat, items);
    CandidatesComplete(cat, items);
    var r := Dedup(c);
    forall i | 0 <= i < |r| ensures Acceptable(cat, r[i]) && Stripped(r[i]) {
      var j :| 0 <= j < |c| && c[j] == r[i];
    }
  }

  /** With normal defaults, the sanitised config is normal. */
  lemma NormalizedIsNormal(cat: Catalogue, defaults: AddonConfig, config: Json, r: AddonConfig)
    requires Normal(cat, defaults)
    requires var clean := CleanLanguages(cat, LanguageItems(Entries(config)));
      r.languages == (if clean == [] then defaults.languages else clean)
    requires r.light == ThemeOr(cat, Entries(config), "light", defaults.light)
    requires r.dark == ThemeOr(cat, Entries(config), "dark", defaults.dark)
    ensures Normal(cat, r)
  {
    CleanLanguagesSound(cat, LanguageItems(Entries(config)));
  }

  /** The config as `writeConfig` stores it. */
  function ToJson(c: AddonConfig): (j: Json)
    ensures j.JObject? && |j.entries| == 3
  {
    JObject([
      ("languages", JArray(Names(c.languages))),
      ("themes", JObject([("light", JString(c.light)), ("dark", JString(c.dark))])),
      ("cardless", JBool(c.cardless))])
  }

  /** A list of names as JSON strings. */
  function Names(names: seq<string>): (r: seq<Json>)
    ensures |r| == |names|
    ensures forall i :: 0 <= i < |names| ==> r[i] == JString(names[i])
  {
    seq(|names|, i requires 0 <= i < |names| => JString(names[i]))
  }

  lemma {:induction false} CandidatesOfNames(cat: Catalogue, names: seq<string>)
    requires forall i :: 0 <= i < |names| ==> Acceptable(cat, names[i]) && Stripped(names[i])
    ensures Candidates(cat, Names(names)) == names
    decreases |names|
  {
    if names != [] {
      var p := names[..|names| - 1];
      var x := names[|names| - 1];
      assert names == p + [x];
      var items := Names(names);
      NamesSnoc(names);
      CandidatesOfNames(cat, p);
      CandidatesSnoc(cat, items);
    }
  }

  lemma NamesSnoc(names: seq<string>)
    requires names != []
    ensures Names(names)[..|names| - 1] == Names(names[..|names| - 1])
    ensures Names(names)[|names| - 1] == JString(names[|names| - 1])
  {
  }

  /** Anki's stored config is rewritten only when sanitising changes it:
      sanitising what was stored gives it back, so the second start writes
      nothing. An empty language list is stable only when it is the
      default one. */
  lemma NormalizeIdempotent(cat: Catalogue, defaults: AddonConfig, c: AddonConfig)
    requires Normal(cat, c)
    requires c.languages == [] ==> defaults.languages == []
    ensures var entries := Entries(ToJson(c));
      var clean := CleanLanguages(cat, LanguageItems(entries));
      (if clean == [] then defaults.languages else clean) == c.languages
      && ThemeOr(cat, entries, "light", defaults.light) == c.light
      && ThemeOr(cat, entries, "dark", defaults.dark) == c.dark
      && Cardless(entries) == c.cardless
  {
    ToJsonFields(c);
    ToJsonThemes(cat, c, defaults.light, defaults.dark);
    CandidatesOfNames(cat, c.languages);
    DedupOfDistinct(c.languages);
  }

  /** What `get_config` persists is stable: once the sanitised config is
      written back, sanitising it again gives the same config. */
  lemma SanitisedIsStable(cat: Catalogue, defaults: AddonConfig, config: Json, r: AddonConfig)
    requires Normal(cat, defaults)
    requires var clean := CleanLanguages(cat, LanguageItems(Entries(config)));
      r.languages == (if clean == [] then defaults.languages else clean)
    requires r.light == ThemeOr(cat, Entries(config), "light", defaults.light)
    requires r.dark == ThemeOr(cat, Entries(config), "dark", defaults.dark)
    requires r.cardless == Cardless(Entries(config))
    ensures var entries := Entries(ToJson(r));
      var clean := CleanLanguages(cat, LanguageItems(entries));
      AddonConfig(if clean == [] then defaults.languages else clean,
        ThemeOr(cat, entries, "light", defaults.light),
        ThemeOr(cat, entries, "dark", defaults.dark),
        Cardless(entries)) == r
  {
    NormalizedIsNormal(cat, defaults, config, r);
    NormalizeIdempotent(cat, defaults, r);
  }

  /** Reading back the fields of a stored config. */
  lemma ToJsonFields(c: AddonConfig)
    ensures var entries := Entries(ToJson(c));
      LanguageItems(entries) == Names(c.languages)
      && Get(entries, "themes") == Some(JObject([("light", JString(c.light)), ("dark", JString(c.dark))]))
      && Get(entries, "cardless") == Some(JBool(c.cardless))
  {
    var entries := Entries(ToJson(c));
    assert "themes" != "languages";
    assert "cardless" != "languages" && "cardless" != "themes";
    assert Get(entries, "themes") == Get(entries[..2], "themes");
    assert Get(entries, "languages") == Get(entries[..2], "languages") == Get(entries[..2][..1], "languages");
  }

  /** Reading back the themes of a stored config. */
  lemma ToJsonThemes(cat: Catalogue, c: AddonConfig, light: string, dark: string)
    requires c.light in cat.themes && c.dark in cat.themes
    ensures ThemeOr(cat, Entries(ToJson(c)), "light", light) == c.light
    ensures ThemeOr(cat, Entries(ToJson(c)), "dark", dark) == c.dark
  {
    ToJsonFields(c);
    var themes := [("light", JString(c.light)), ("dark", JString(c.dark))];
    assert "dark" != "light";
    assert Get(themes, "light") == Get(themes[..1], "light");
  }

  // ---------------------------------------------------------------------
  // _load_default_config
  // ---------------------------------------------------------------------

  /** What `for lang in v` iterates: the items of a list, the characters
      of a string, the keys of a dict; `None` for a value that is not
      iterable, which raises `TypeError`. */
  function Iterate(v: Json): (r: Option<seq<Json>>)
    ensures v.JArray? ==> r == Some(v.items)
    ensures (v.JNull? || v.JBool? || v.JNumber?) <==> r.None?
  {
    match v
    case JArray(items) => Some(items)
    case JString(s) => Some(seq(|s|, i requires 0 <= i < |s| => JString([s[i]])))
    case JObject(entries) =>
      var keys := Keys(entries);
      Some(seq(|keys|, i requires 0 <= i < |keys| => JString(keys[i])))
    case _ => None
  }

  /** The string items that are available languages, as given. */
  function AvailableStrings(cat: Catalogue, items: seq<Json>): (r: seq<string>)
    ensures forall i :: 0 <= i < |r| ==> r[i] in cat.languages
    ensures forall i :: 0 <= i < |items| && items[i].JString? && items[i].s in cat.languages ==> items[i].s in r
    decreases |items|
  {
    if items == [] then []
    else
      var rest := AvailableStrings(cat, items[1..]);
      assert forall i :: 1 <= i < |items| ==> items[i] == items[1..][i - 1];
      if items[0].JString? && items[0].s in cat.languages then [items[0].s] + rest else rest
  }

  /** A value that is an available theme name. */
  predicate IsAvailableTheme(cat: Catalogue, v: Option<Json>) {
    v.Some? && v.value.JString? && v.value.s in cat.themes
  }

  /** The entries of the parsed config.json, none when it is missing or
      not an object. */
  function RawEntries(raw: Option<Json>): (r: seq<(string, Json)>)
    ensures raw.Some? && raw.value.JObject? ==> r == raw.value.entries
    ensures raw.None? ==> r == []
  {
    if raw.Some? && raw.value.JObject? then raw.value.entries else []
  }

  /** `_load_default_config()`, given the parsed config.json or `None` when
      reading or parsing it raised; `None` when the function raises: a
      parsed value that is not a dict, a `languages` value that is not
      iterable, or no theme to fall back on. */
  function LoadDefaultConfig(cat: Catalogue, raw: Option<Json>): (r: Option<AddonConfig>)
    ensures r.Some? ==> (forall i :: 0 <= i < |r.value.languages| ==> r.value.languages[i] in cat.languages)
    ensures r.Some? ==> r.value.light in cat.themes && r.value.dark in cat.themes
    ensures r.Some? ==> r.value.dark == r.value.light || IsAvailableTheme(cat, ThemeEntry(raw, "dark"))
    ensures r.None? <==>
      || (raw.Some? && !raw.value.JObject?)
      || (var l := Get(RawEntries(raw), "languages"); l.Some? && Iterate(l.value).None?)
      || cat.themes == []
    ensures var l := Get(RawEntries(raw), "languages");
      r.Some? ==> r.value.languages == if l.Some? then AvailableStrings(cat, Iterate(l.value).value) else []
    ensures var c := Get(RawEntries(raw), "cardless");
      r.Some? ==> r.value.cardless == (c.Some? && Truthy(c.value))
  {
    var obj := if raw.None? then JObject([]) else raw.value;
    if !obj.JObject? then None
    else
      var entries := obj.entries;
      var langValue := Get(entries, "languages");
      var langItems := if langValue.None? then Some([]) else Iterate(langValue.value);
      if langItems.None? then None
      else
        var langs := AvailableStrings(cat, langItems.value);
        var light := ThemeEntry(raw, "light");
        var dark := ThemeEntry(raw, "dark");
        if !IsAvailableTheme(cat, light) && cat.themes == [] then None
        else
          var l := if IsAvailableTheme(cat, light) then light.value.s else cat.themes[0];
          var d := if IsAvailableTheme(cat, dark) then dark.value.s else l;
          Some(AddonConfig(langs, l, d, Cardless(entries)))
  }

  /** `raw_themes.get(key)`, where `raw_themes` is `{}` unless the themes
      entry is a dict. */
  function ThemeEntry(raw: Option<Json>, key: string): (r: Option<Json>) {
    if raw.None? || !raw.value.JObject? then None
    else match Get(raw.value.entries, "themes")
      case Some(JObject(themes)) => Get(themes, key)
      case _ => None
  }

  /** Without a readable config.json the defaults are: no languages, the
      first available theme for both modes, cards with fields. */
  lemma MissingConfigDefaults(cat: Catalogue)
    requires cat.themes != []
    ensures LoadDefaultConfig(cat, None) == Some(AddonConfig([], cat.themes[0], cat.themes[0], false))
  {
  }

  /** The light theme falls back to the first available theme, the dark
      one to the light one. */
  lemma DefaultThemeFallbacks(cat: Catalogue, raw: Option<Json>)
    requires LoadDefaultConfig(cat, raw).Some?
    ensures var c := LoadDefaultConfig(cat, raw).value;
      (IsAvailableTheme(cat, ThemeEntry(raw, "light")) ==> c.light == ThemeEntry(raw, "light").value.s)
      && (!IsAvailableTheme(cat, ThemeEntry(raw, "light")) ==> c.light == cat.themes[0])
      && (IsAvailableTheme(cat, ThemeEntry(raw, "dark")) ==> c.dark == ThemeEntry(raw, "dark").value.s)
      && (!IsAvailableTheme(cat, ThemeEntry(raw, "dark")) ==> c.dark == c.light)
  {
  }

  /** A string `languages` value is iterated character by character: each
      one-letter name that is an available language is kept. */
  lemma StringLanguagesAreLetters(cat: Catalogue, s: string, i: nat)
    requires i < |s| && [s[i]] in cat.languages
    ensures [s[i]] in AvailableStrings(cat, Iterate(JString(s)).value)
  {
    var items := Iterate(JString(s)).value;
    assert items[i] == JString([s[i]]);
  }
}
