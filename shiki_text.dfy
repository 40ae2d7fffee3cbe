/** The pure text functions of anki_markdown/shiki.py: the esm.sh module
    URL, the two import patterns `_IMPORT_RE` and `_LOCAL_RE` with the
    scans `re.search`, `re.findall` and `re.sub` make over them, alias
    detection, dependency extraction and the import rewrite. Module bodies
    are modelled as decoded text. */
module ShikiText {
  import opened Common

  const EsmBase := "https://esm.sh/@shikijs"

  /** `"langs"` for kind `"lang"`, `"themes"` for every other kind. */
  function Package(kind: string): string {
    if kind == "lang" then "langs" else "themes"
  }

  /** `esm_url(kind, name, version)`. */
  function EsmUrl(kind: string, name: string, version: string): (r: string) {
    EsmBase + "/" + Package(kind) + "@" + version + "/es2022/" + name + ".mjs"
  }

  // ---------------------------------------------------------------------
  // Character runs
  // ---------------------------------------------------------------------

  /** Length of the longest prefix of `t` whose characters all satisfy `ok`. */
  function Run(t: string, ok: char -> bool): (k: nat)
    ensures k <= |t|
    ensures forall j :: 0 <= j < k ==> ok(t[j])
    ensures k < |t| ==> !ok(t[k])
  {
    if t == [] || !ok(t[0]) then 0 else 1 + Run(t[1..], ok)
  }

  /** A run that ends inside `t` depends only on the characters up to its
      end. */
  lemma RunDetermined(t: string, u: string, ok: char -> bool)
    requires Run(t, ok) < |t| && Run(t, ok) < |u|
    requires forall j :: 0 <= j <= Run(t, ok) ==> u[j] == t[j]
    ensures Run(u, ok) == Run(t, ok)
  {
    var k := Run(t, ok);
    assert u[k] == t[k];
  }

  predicate IsQuote(c: char) {
    c == '"' || c == '\''
  }

  /** `[^"'.]`. */
  predicate IsImportNameChar(c: char) {
    !IsQuote(c) && c != '.'
  }

  /** `[^.]`. */
  predicate IsNotDot(c: char) {
    c != '.'
  }

  predicate AllImportNameChars(name: string) {
    forall j :: 0 <= j < |name| ==> IsImportNameChar(name[j])
  }

  // ---------------------------------------------------------------------
  // _IMPORT_RE: from\s*["']\./([^"'.]+)\.mjs["']
  // ---------------------------------------------------------------------

  /** A pattern match at the start of a text: its length and its group. */
  datatype Match = Match(len: nat, name: string)

  /** The `_IMPORT_RE` match at the start of `t`, if any. Both repetitions
      are followed by a character they cannot consume, so the greedy run is
      the only candidate. */
  function ImportAt(t: string): (m: Option<Match>)
    ensures m.Some? ==> m.value.len <= |t| && |t| >= 4 && t[..4] == "from"
    ensures m.Some? ==> m.value.name != [] && AllImportNameChars(m.value.name)
    ensures m.Some? ==> m.value.len >= 5 && t[0] == 'f' && t[1] == 'r'
  {
    if |t| >= 4 && t[..4] == "from" then
      assert t[0] == t[..4][0] && t[1] == t[..4][1];
      MjsPathAt(t, 4 + Run(t[4..], IsPySpace))
    else None
  }

  /** The rest of the pattern, `["']\./([^"'.]+)\.mjs["']`, at position `a`
      of `t`; the match it completes spans `t[..len]`. */
  function MjsPathAt(t: string, a: nat): (m: Option<Match>)
    requires a <= |t|
    ensures m.Some? ==> a + 3 < m.value.len <= |t|
    ensures m.Some? ==> m.value.name != [] && AllImportNameChars(m.value.name)
  {
    if a + 3 <= |t| && IsQuote(t[a]) && t[a + 1] == '.' && t[a + 2] == '/' then
      var b := a + 3;
      var n := Run(t[b..], IsImportNameChar);
      if n > 0 && b + n + 5 <= |t| && t[b + n..b + n + 4] == ".mjs" && IsQuote(t[b + n + 4]) then
        Some(Match(b + n + 5, t[b..b + n]))
      else None
    else None
  }

  /** The run of `ok` characters from position `i` of `t` has length `k`
      when the characters say so. */
  lemma RunFrom(t: string, i: nat, k: nat, ok: char -> bool)
    requires i + k <= |t|
    requires forall j :: i <= j < i + k ==> ok(t[j])
    requires i + k < |t| ==> !ok(t[i + k])
    ensures Run(t[i..], ok) == k
  {
    var u := t[i..];
    forall j | 0 <= j < k ensures ok(u[j]) {
      assert u[j] == t[i + j];
    }
    if i + k < |t| {
      assert u[k] == t[i + k];
    }
    RunIs(u, ok, k);
  }

  /** `from` and white space up to `a`, where a quote stands: the match is
      the one the rest of the pattern finds at `a`. */
  lemma ImportAtFrom(t: string, a: nat)
    requires 4 <= a < |t|
    requires t[0] == 'f' && t[1] == 'r' && t[2] == 'o' && t[3] == 'm'
    requires forall j :: 4 <= j < a ==> IsPySpace(t[j])
    requires IsQuote(t[a])
    ensures ImportAt(t) == MjsPathAt(t, a)
  {
    assert t[..4] == "from";
    RunFrom(t, 4, a - 4, IsPySpace);
  }

  /** The match `ImportAt` finds in a text laid out character by
      character as `from`, white space up to `a`, a quote, `./`, `n` name
      characters, `.mjs` and a quote. */
  lemma ImportAtOfParts(t: string, a: nat, n: nat)
    requires 4 <= a && 0 < n && a + 3 + n + 5 <= |t|
    requires t[0] == 'f' && t[1] == 'r' && t[2] == 'o' && t[3] == 'm'
    requires forall j :: 4 <= j < a ==> IsPySpace(t[j])
    requires IsQuote(t[a]) && t[a + 1] == '.' && t[a + 2] == '/'
    requires forall j :: a + 3 <= j < a + 3 + n ==> IsImportNameChar(t[j])
    requires t[a + 3 + n] == '.' && t[a + 3 + n + 1] == 'm' && t[a + 3 + n + 2] == 'j'
    requires t[a + 3 + n + 3] == 's' && IsQuote(t[a + 3 + n + 4])
    ensures ImportAt(t) == Some(Match(a + 3 + n + 5, t[a + 3..a + 3 + n]))
  {
    ImportAtFrom(t, a);
    MjsPathOfParts(t, a, n);
  }

  /** The rest of the pattern, laid out character by character. */
  lemma MjsPathOfParts(t: string, a: nat, n: nat)
    requires 0 < n && a + 3 + n + 5 <= |t|
    requires IsQuote(t[a]) && t[a + 1] == '.' && t[a + 2] == '/'
    requires forall j :: a + 3 <= j < a + 3 + n ==> IsImportNameChar(t[j])
    requires t[a + 3 + n] == '.' && t[a + 3 + n + 1] == 'm' && t[a + 3 + n + 2] == 'j'
    requires t[a + 3 + n + 3] == 's' && IsQuote(t[a + 3 + n + 4])
    ensures MjsPathAt(t, a) == Some(Match(a + 3 + n + 5, t[a + 3..a + 3 + n]))
  {
    RunFrom(t, a + 3, n, IsImportNameChar);
    MjsSlice(t, a + 3 + n);
  }

  lemma MjsSlice(t: string, i: nat)
    requires i + 4 <= |t|
    requires t[i] == '.' && t[i + 1] == 'm' && t[i + 2] == 'j' && t[i + 3] == 's'
    ensures t[i..i + 4] == ".mjs"
  {
  }

  /** A match depends only on the characters it spans. */
  lemma ImportAtPrefix(t: string, u: string)
    requires ImportAt(t).Some?
    requires ImportAt(t).value.len <= |u|
    requires forall j :: 0 <= j < ImportAt(t).value.len ==> u[j] == t[j]
    ensures ImportAt(u) == ImportAt(t)
  {
    var a, n := ImportAtShape(t);
    var len := a + 3 + n + 5;
    assert forall j :: 0 <= j < len ==> u[j] == t[j];
    ImportAtOfParts(u, a, n);
    assert u[a + 3..a + 3 + n] == t[a + 3..a + 3 + n];
  }

  /** The `_IMPORT_RE` match at position `p` of `s`. */
  function ImportFrom(s: string, p: nat): (m: Option<Match>)
    requires p <= |s|
  {
    ImportAt(s[p..])
  }

  /** No match starts at any position of `s`. */
  predicate ImportFree(s: string) {
    forall p :: 0 <= p <= |s| ==> ImportFrom(s, p).None?
  }

  /** The position of the first match, as `re.search` finds it. */
  function FirstImport(s: string): (q: Option<nat>)
    ensures q.Some? ==> q.value <= |s| && ImportFrom(s, q.value).Some?
    ensures q.Some? ==> forall p :: 0 <= p < q.value ==> ImportFrom(s, p).None?
    ensures q.None? ==> ImportFree(s)
    decreases |s|
  {
    if ImportAt(s).Some? then Some(0)
    else if s == [] then None
    else
      match FirstImport(s[1..])
      case None =>
        ShiftImportFree(s, |s| - 1);
        None
      case Some(q) =>
        ShiftImportFree(s, q);
        assert s[q + 1..] == s[1..][q..];
        Some(q + 1)
  }

  lemma ShiftImportFree(s: string, k: nat)
    requires s != [] && ImportAt(s).None? && k <= |s| - 1
    requires forall p :: 0 <= p < k ==> ImportFrom(s[1..], p).None?
    requires k == |s| - 1 ==> ImportFrom(s[1..], k).None?
    ensures forall p :: 0 <= p < k + 1 ==> ImportFrom(s, p).None?
    ensures k == |s| - 1 ==> ImportFree(s)
  {
    forall p | 0 < p <= |s| && (p < k + 1 || (k == |s| - 1 && p == |s|))
      ensures ImportFrom(s, p).None?
    {
      ImportFromTail(s, p - 1);
    }
    ImportFromStart(s);
  }

  lemma ImportFromStart(s: string)
    ensures ImportFrom(s, 0) == ImportAt(s)
  {
    assert s[0..] == s;
  }

  lemma ImportFromTail(s: string, p: nat)
    requires s != [] && p <= |s| - 1
    ensures ImportFrom(s[1..], p) == ImportFrom(s, p + 1)
  {
    assert s[1..][p..] == s[p + 1..];
  }

  /** `_IMPORT_RE.search(text).group(1)`. */
  function SearchImport(s: string): (r: Option<string>)
    ensures r.None? <==> ImportFree(s)
    ensures r.Some? ==> exists p :: 0 <= p <= |s| && ImportFrom(s, p).Some? && ImportFrom(s, p).value.name == r.value
  {
    match FirstImport(s)
    case None => None
    case Some(q) =>
      assert ImportFrom(s, q).Some?;
      Some(ImportFrom(s, q).value.name)
  }

  /** `is_alias_module`: a short module that re-exports another names it. */
  function IsAliasModule(text: string): (r: Option<string>)
    ensures |text| >= 200 ==> r.None?
    ensures |text| < 200 ==> r == SearchImport(text)
  {
    if |text| < 200 then SearchImport(text) else None
  }

  /** `lang_deps`, that is `_IMPORT_RE.findall`: the groups of the matches
      a left-to-right scan finds, resuming after each match. */
  function LangDeps(s: string): (r: seq<string>)
    ensures forall i :: 0 <= i < |r| ==> r[i] != [] && AllImportNameChars(r[i])
    decreases |s|
  {
    if s == [] then []
    else match ImportAt(s)
      case Some(m) => [m.name] + LangDeps(s[m.len..])
      case None => LangDeps(s[1..])
  }

  /** The replacement of a match: `from"./_lang-NAME.js"`. */
  function LocalImport(name: string): (r: string)
    ensures |r| == |name| + 17
  {
    LocalPrefix + name + ".js\""
  }

  const LocalPrefix := "from\"./_lang-"

  /** `rewrite_lang_imports`, that is `_IMPORT_RE.sub`: every match the
      scan finds replaced by the local import of its group. */
  function Rewrite(s: string): (r: string)
    decreases |s|
  {
    if s == [] then []
    else match ImportAt(s)
      case Some(m) => LocalImport(m.name) + Rewrite(s[m.len..])
      case None => [s[0]] + Rewrite(s[1..])
  }

  // ---------------------------------------------------------------------
  // _LOCAL_RE: from"\.\/_lang-([^.]+)\.js"
  // ---------------------------------------------------------------------

  /** The `_LOCAL_RE` match at the start of `t`, if any. */
  function LocalAt(t: string): (m: Option<Match>)
    ensures m.Some? ==> m.value.len <= |t| && |t| >= 13 && t[..13] == LocalPrefix
    ensures m.Some? ==> m.value.name != [] && m.value.len >= 18
  {
    if |t| >= 13 && t[..13] == LocalPrefix then
      var n := Run(t[13..], IsNotDot);
      if n > 0 && 13 + n + 4 <= |t| && t[13 + n..13 + n + 4] == ".js\"" then
        Some(Match(13 + n + 4, t[13..13 + n]))
      else None
    else None
  }

  lemma LocalAtPrefix(t: string, u: string)
    requires LocalAt(t).Some?
    requires LocalAt(t).value.len <= |u|
    requires forall j :: 0 <= j < LocalAt(t).value.len ==> u[j] == t[j]
    ensures LocalAt(u) == LocalAt(t)
  {
    assert u[..13] == t[..13];
    var n := Run(t[13..], IsNotDot);
    RunDetermined(t[13..], u[13..], IsNotDot);
    assert u[13 + n..13 + n + 4] == t[13 + n..13 + n + 4];
    assert u[13..13 + n] == t[13..13 + n];
  }

  /** The `_LOCAL_RE` match at position `p` of `s`. */
  function LocalFrom(s: string, p: nat): (m: Option<Match>)
    requires p <= |s|
  {
    LocalAt(s[p..])
  }

  /** No `_LOCAL_RE` match starts anywhere in `s`. */
  predicate LocalFree(s: string) {
    forall p :: 0 <= p <= |s| ==> LocalFrom(s, p).None?
  }

  /** `_LOCAL_RE.findall`. */
  function LocalDeps(s: string): (r: seq<string>)
    decreases |s|
  {
    if s == [] then []
    else match LocalAt(s)
      case Some(m) => [m.name] + LocalDeps(s[m.len..])
      case None => LocalDeps(s[1..])
  }

  // ---------------------------------------------------------------------
  // Properties of the rewrite
  // ---------------------------------------------------------------------

  /** The run of `ok` characters whose end is known. */
  lemma RunIs(t: string, ok: char -> bool, k: nat)
    requires k <= |t| && forall j :: 0 <= j < k ==> ok(t[j])
    requires k < |t| ==> !ok(t[k])
    ensures Run(t, ok) == k
  {
  }

  lemma ImportFreeTail(s: string)
    requires s != [] && ImportFree(s)
    ensures ImportAt(s).None? && ImportFree(s[1..])
  {
    ImportFromStart(s);
    forall p | 0 <= p <= |s| - 1 ensures ImportFrom(s[1..], p).None? {
      ImportFromTail(s, p);
    }
  }

  /** Text without a match of `_IMPORT_RE` is left as it is and has no
      dependencies. */
  lemma {:induction false} RewriteIdentity(s: string)
    requires ImportFree(s)
    ensures Rewrite(s) == s && LangDeps(s) == []
    decreases |s|
  {
    if s != [] {
      ImportFreeTail(s);
      RewriteIdentity(s[1..]);
    }
  }

  /** No match starts before position `q`. */
  predicate NoImportBefore(s: string, q: nat)
    requires q <= |s|
  {
    forall p :: 0 <= p < q ==> ImportFrom(s, p).None?
  }

  lemma ImportNoneTail(s: string, q: nat)
    requires 0 < q <= |s| && NoImportBefore(s, q)
    ensures ImportAt(s).None? && NoImportBefore(s[1..], q - 1)
  {
    ImportFromStart(s);
    forall p | 0 <= p < q - 1 ensures ImportFrom(s[1..], p).None? {
      ImportFromTail(s, p);
    }
  }

  /** One step of both scans past a position where no match starts. */
  lemma RewriteStep(s: string)
    requires s != [] && ImportAt(s).None?
    ensures Rewrite(s) == [s[0]] + Rewrite(s[1..])
    ensures LangDeps(s) == LangDeps(s[1..])
  {
  }

  /** The scan copies everything before the first match. */
  lemma {:induction false} RewriteAtFirst(s: string, q: nat)
    requires q <= |s| && NoImportBefore(s, q)
    ensures Rewrite(s) == s[..q] + Rewrite(s[q..])
    decreases q
  {
    if q > 0 {
      var t := s[1..];
      assert Rewrite(s) == [s[0]] + Rewrite(t) by {
        ImportNoneTail(s, q);
        RewriteStep(s);
      }
      assert Rewrite(t) == t[..q - 1] + Rewrite(s[q..]) by {
        ImportNoneTail(s, q);
        RewriteAtFirst(t, q - 1);
        assert t[q - 1..] == s[q..];
      }
      PrefixStep(s, q, Rewrite(s[q..]));
    } else {
      assert s[0..] == s && s[..0] == [];
    }
  }

  lemma PrefixStep(s: string, q: nat, r: string)
    requires 0 < q <= |s|
    ensures [s[0]] + (s[1..][..q - 1] + r) == s[..q] + r
  {
    assert s[..q] == [s[0]] + s[1..][..q - 1];
  }

  /** `findall` finds nothing before the first match. */
  lemma {:induction false} LangDepsAtFirst(s: string, q: nat)
    requires q <= |s| && NoImportBefore(s, q)
    ensures LangDeps(s) == LangDeps(s[q..])
    decreases q
  {
    if q > 0 {
      ImportNoneTail(s, q);
      RewriteStep(s);
      LangDepsAtFirst(s[1..], q - 1);
      assert s[1..][q - 1..] == s[q..];
    } else {
      assert s[0..] == s;
    }
  }

  /** No match starts inside an inserted local import, whatever follows it. */
  lemma NoImportInsideLocal(name: string, k: nat, u: string)
    requires name != [] && AllImportNameChars(name)
    requires k < |LocalImport(name)|
    ensures ImportAt(LocalImport(name)[k..] + u).None?
  {
    var r := LocalImport(name);
    var t := r[k..] + u;
    if k == 0 {
      NoImportAtLocal(name, u);
    } else if k < 13 {
      assert t[0] == LocalPrefix[k];
      LocalPrefixHasOneF(k);
    } else if k < 13 + |name| {
      var j := k - 13;
      assert t == name[j..] + (".js\"" + u);
      NoImportInName(name[j..], ".js\"" + u);
    } else {
      assert t[0] == ".js\""[k - 13 - |name|];
    }
  }

  lemma LocalPrefixHasOneF(k: nat)
    requires 0 < k < 13
    ensures LocalPrefix[k] != 'f'
  {
    assert LocalPrefix == ['f', 'r', 'o', 'm', '"', '.', '/', '_', 'l', 'a', 'n', 'g', '-'];
  }

  /** At its own start the local import is no `.mjs` import: its path ends
      in `.js`. */
  lemma NoImportAtLocal(name: string, u: string)
    requires name != [] && AllImportNameChars(name)
    ensures ImportAt(LocalImport(name) + u).None?
  {
    var t := LocalImport(name) + u;
    var n := |name|;
    assert t == LocalPrefix + name + (".js\"" + u);
    LocalPrefixChars(t, 0);
    assert t[..13] == LocalPrefix;
    forall j | 7 <= j < 13 + n ensures IsImportNameChar(t[j]) {
      if j < 13 {
        assert t[j] == t[..13][j];
        LocalPrefixNameChars(j);
      } else {
        assert t[j] == name[j - 13];
      }
    }
    assert t[13 + n] == '.' && t[13 + n + 1] == 'j';
    ImportAtNotMjs(t, 4, 6 + n);
  }

  /** Characters 7 to 12 of the local prefix, `_lang-`, are name
      characters. */
  lemma LocalPrefixNameChars(j: nat)
    requires 7 <= j < 13
    ensures IsImportNameChar(LocalPrefix[j])
  {
    assert LocalPrefix == ['f', 'r', 'o', 'm', '"', '.', '/', '_', 'l', 'a', 'n', 'g', '-'];
  }

  /** No match where the name run of a text laid out like a match is
      followed by `.` and something other than `m`. */
  lemma ImportAtNotMjs(t: string, a: nat, n: nat)
    requires 4 <= a && a + 3 + n + 1 < |t|
    requires t[0] == 'f' && t[1] == 'r' && t[2] == 'o' && t[3] == 'm'
    requires forall j :: 4 <= j < a ==> IsPySpace(t[j])
    requires IsQuote(t[a]) && t[a + 1] == '.' && t[a + 2] == '/'
    requires forall j :: a + 3 <= j < a + 3 + n ==> IsImportNameChar(t[j])
    requires t[a + 3 + n] == '.' && t[a + 3 + n + 1] != 'm'
    ensures ImportAt(t).None?
  {
    ImportAtFrom(t, a);
    MjsPathNotMjs(t, a, n);
  }

  lemma MjsPathNotMjs(t: string, a: nat, n: nat)
    requires a + 3 + n + 1 < |t|
    requires forall j :: a + 3 <= j < a + 3 + n ==> IsImportNameChar(t[j])
    requires t[a + 3 + n] == '.' && t[a + 3 + n + 1] != 'm'
    ensures MjsPathAt(t, a).None?
  {
    RunFrom(t, a + 3, n, IsImportNameChar);
    NotMjsSlice(t, a + 3 + n);
  }

  lemma NotMjsSlice(t: string, i: nat)
    requires i + 1 < |t| && t[i + 1] != 'm'
    ensures i + 4 <= |t| ==> t[i..i + 4] != ".mjs"
  {
    if i + 4 <= |t| {
      assert t[i..i + 4][1] == t[i + 1];
    }
  }

  /** A match cannot start in the name of a local import: after `from` and
      white space it would need a quote, and the name and the `.` after it
      hold none. */
  lemma NoImportInName(w: string, v: string)
    requires AllImportNameChars(w) && v != [] && v[0] == '.'
    ensures ImportAt(w + v).None?
  {
    var t := w + v;
    var len := |w|;
    assert t[len] == '.';
    if |t| >= 4 && t[..4] == "from" {
      assert forall i :: 0 <= i < 4 ==> t[i] == "from"[i];
      assert len >= 4;
      var sp := Run(t[4..], IsPySpace);
      assert !IsPySpace(t[4..][len - 4]);
      if 4 + sp < len {
        assert t[4 + sp] == w[4 + sp];
      }
    }
  }

  /** A match at the start of a text is the match at the start of any
      longer text. */
  lemma ImportAtExtend(c: string, u: string)
    requires c <= u
    ensures ImportAt(c).Some? ==> ImportAt(u) == ImportAt(c)
  {
    if ImportAt(c).Some? {
      ImportAtPrefix(c, u);
    }
  }

  /** A match within the first `|c|` characters of a text is a match at the
      start of `c`. */
  lemma ImportAtShrink(v: string, c: string)
    requires c <= v
    ensures ImportAt(v).Some? && ImportAt(v).value.len <= |c| ==> ImportAt(c) == ImportAt(v)
  {
    if ImportAt(v).Some? && ImportAt(v).value.len <= |c| {
      ImportAtPrefix(v, c);
    }
  }

  /** One step of both scans over a match. */
  lemma RewriteMatch(s: string)
    requires ImportAt(s).Some?
    ensures var m := ImportAt(s).value;
      Rewrite(s) == LocalImport(m.name) + Rewrite(s[m.len..])
      && LangDeps(s) == [m.name] + LangDeps(s[m.len..])
  {
  }

  /** A match that starts before an inserted local import ends before it:
      the `f` the import starts with fits nowhere in the rest of a match. */
  lemma MatchStopsBeforeLocal(c: string, name: string, u: string)
    requires c != [] && name != [] && AllImportNameChars(name)
    ensures ImportAt(c + LocalImport(name) + u).Some? ==> ImportAt(c + LocalImport(name) + u).value.len <= |c|
  {
    var t := c + LocalImport(name) + u;
    LocalImportStart(c, name, u);
    MatchStopsBefore(t, |c|);
  }

  /** A match ends before a position `k > 0` that holds `from"`. */
  lemma MatchStopsBefore(t: string, k: nat)
    requires 0 < k && k + 5 <= |t|
    requires t[k] == 'f' && t[k + 1] == 'r' && t[k + 2] == 'o' && t[k + 3] == 'm' && t[k + 4] == '"'
    ensures ImportAt(t).Some? ==> ImportAt(t).value.len <= k
  {
    if ImportAt(t).Some? {
      var a, n := ImportAtShape(t);
      PartsStopBefore(t, k, a, n);
    }
  }

  /** The parts of a match, character by character. */
  lemma ImportAtShape(t: string) returns (a: nat, n: nat)
    requires ImportAt(t).Some?
    ensures 4 <= a && 0 < n && a + 3 + n + 5 <= |t|
    ensures ImportAt(t).value == Match(a + 3 + n + 5, t[a + 3..a + 3 + n])
    ensures t[0] == 'f' && t[1] == 'r' && t[2] == 'o' && t[3] == 'm'
    ensures forall j :: 4 <= j < a ==> IsPySpace(t[j])
    ensures IsQuote(t[a]) && t[a + 1] == '.' && t[a + 2] == '/'
    ensures forall j :: a + 3 <= j < a + 3 + n ==> IsImportNameChar(t[j])
    ensures t[a + 3 + n] == '.' && t[a + 3 + n + 1] == 'm' && t[a + 3 + n + 2] == 'j'
    ensures t[a + 3 + n + 3] == 's' && IsQuote(t[a + 3 + n + 4])
  {
    a := 4 + Run(t[4..], IsPySpace);
    assert t[..4] == "from";
    assert t[0] == t[..4][0] && t[1] == t[..4][1] && t[2] == t[..4][2] && t[3] == t[..4][3];
    forall j | 4 <= j < a ensures IsPySpace(t[j]) {
      assert t[4..][j - 4] == t[j];
    }
    n := MjsPathShape(t, a);
  }

  /** The parts of a match of the rest of the pattern. */
  lemma MjsPathShape(t: string, a: nat) returns (n: nat)
    requires a <= |t| && MjsPathAt(t, a).Some?
    ensures 0 < n && a + 3 + n + 5 <= |t|
    ensures MjsPathAt(t, a).value == Match(a + 3 + n + 5, t[a + 3..a + 3 + n])
    ensures IsQuote(t[a]) && t[a + 1] == '.' && t[a + 2] == '/'
    ensures forall j :: a + 3 <= j < a + 3 + n ==> IsImportNameChar(t[j])
    ensures t[a + 3 + n] == '.' && t[a + 3 + n + 1] == 'm' && t[a + 3 + n + 2] == 'j'
    ensures t[a + 3 + n + 3] == 's' && IsQuote(t[a + 3 + n + 4])
  {
    n := Run(t[a + 3..], IsImportNameChar);
    forall j | a + 3 <= j < a + 3 + n ensures IsImportNameChar(t[j]) {
      assert t[a + 3..][j - a - 3] == t[j];
    }
    var e := t[a + 3 + n..a + 3 + n + 4];
    assert e == ".mjs";
    assert t[a + 3 + n] == e[0] && t[a + 3 + n + 1] == e[1] && t[a + 3 + n + 2] == e[2] && t[a + 3 + n + 3] == e[3];
  }

  /** Where `from"` stands at `k > 0`, a match laid out by `a` and `n` ends
      at `k` or before: `f` fits neither in `rom`, the white space, the
      quote, `./`, the name nor `.mjs"`, and the `"` after it fits not in
      the name. */
  lemma PartsStopBefore(t: string, k: nat, a: nat, n: nat)
    requires 0 < k && k + 5 <= |t| && 4 <= a && a + 3 + n + 5 <= |t|
    requires t[k] == 'f' && t[k + 1] == 'r' && t[k + 2] == 'o' && t[k + 3] == 'm' && t[k + 4] == '"'
    requires t[1] == 'r' && t[2] == 'o' && t[3] == 'm'
    requires forall j :: 4 <= j < a ==> IsPySpace(t[j])
    requires IsQuote(t[a]) && t[a + 1] == '.' && t[a + 2] == '/'
    requires forall j :: a + 3 <= j < a + 3 + n ==> IsImportNameChar(t[j])
    requires t[a + 3 + n] == '.' && t[a + 3 + n + 1] == 'm' && t[a + 3 + n + 2] == 'j'
    requires t[a + 3 + n + 3] == 's' && IsQuote(t[a + 3 + n + 4])
    ensures a + 3 + n + 5 <= k
  {
    assert !IsPySpace(t[k]) && !IsImportNameChar(t[k + 4]);
  }

  /** The first five characters of an inserted local import. */
  lemma LocalImportStart(c: string, name: string, u: string)
    ensures var t := c + LocalImport(name) + u; var k := |c|;
      |t| >= k + 5 && t[k] == 'f' && t[k + 1] == 'r' && t[k + 2] == 'o' && t[k + 3] == 'm' && t[k + 4] == '"'
  {
    var t := c + LocalImport(name) + u;
    var k := |c|;
    assert t[k..k + 13] == LocalPrefix;
  }

  /** Text copied from before the first match holds no match of its own. */
  lemma CopiedPrefixFree(s: string, q: nat)
    requires q <= |s| && NoImportBefore(s, q)
    ensures forall p :: 0 <= p < q ==> ImportFrom(s[..q], p).None?
  {
    forall p | 0 <= p < q ensures ImportFrom(s[..q], p).None? {
      assert ImportFrom(s, p).None?;
      ImportAtExtend(s[..q][p..], s[p..]);
    }
  }

  /** Copied text without a match of its own, then a local import, then
      text without a match: no match anywhere. */
  lemma JoinFree(c: string, name: string, w: string)
    requires forall p :: 0 <= p < |c| ==> ImportFrom(c, p).None?
    requires name != [] && AllImportNameChars(name) && ImportFree(w)
    ensures ImportFree(c + (LocalImport(name) + w))
  {
    var r := LocalImport(name);
    var t := c + (r + w);
    forall p | 0 <= p <= |t| ensures ImportFrom(t, p).None? {
      if p < |c| {
        var cp := c[p..];
        assert t[p..] == cp + r + w;
        MatchStopsBeforeLocal(cp, name, w);
        ImportAtShrink(t[p..], cp);
        assert ImportFrom(c, p) == ImportAt(cp);
      } else if p < |c| + |r| {
        assert t[p..] == r[p - |c|..] + w;
        NoImportInsideLocal(name, p - |c|, w);
      } else {
        assert t[p..] == w[p - |c| - |r|..];
        assert ImportFrom(w, p - |c| - |r|).None?;
      }
    }
  }

  /** The rewritten text has no `.mjs` import left: `needs_redownload`
      does not find the rewritten module stale on that account. */
  lemma {:induction false} NoImportAfterRewrite(s: string)
    ensures ImportFree(Rewrite(s))
    decreases |s|
  {
    match FirstImport(s)
    case None =>
      RewriteIdentity(s);
    case Some(q) =>
      var m := ImportFrom(s, q).value;
      var rest := s[q..][m.len..];
      RewriteAtFirst(s, q);
      RewriteMatch(s[q..]);
      NoImportAfterRewrite(rest);
      CopiedPrefixFree(s, q);
      JoinFree(s[..q], m.name, Rewrite(rest));
  }

  // ---------------------------------------------------------------------
  // The local dependencies of a rewritten module
  // ---------------------------------------------------------------------

  lemma LocalFreeSuffix(s: string, i: nat)
    requires i <= |s| && LocalFree(s)
    ensures LocalFree(s[i..])
  {
    forall p | 0 <= p <= |s| - i ensures LocalFrom(s[i..], p).None? {
      assert s[i..][p..] == s[i + p..];
      assert LocalFrom(s, i + p).None?;
    }
  }

  lemma {:induction false} LocalFreeNoDeps(s: string)
    requires LocalFree(s)
    ensures LocalDeps(s) == []
    decreases |s|
  {
    if s != [] {
      assert s[0..] == s;
      assert LocalFrom(s, 0).None?;
      LocalFreeSuffix(s, 1);
      LocalFreeNoDeps(s[1..]);
    }
  }

  /** The inserted local import is the match `_LOCAL_RE` finds at its
      start, with the name it was made from. */
  lemma LocalAtLocalImport(name: string, w: string)
    requires name != [] && AllImportNameChars(name)
    ensures LocalAt(LocalImport(name) + w) == Some(Match(|name| + 17, name))
  {
    var t := LocalImport(name) + w;
    var n := |name|;
    assert t[..13] == LocalPrefix;
    assert t[13..13 + n] == name;
    assert t[13 + n..13 + n + 4] == ".js\"";
    assert forall j :: 0 <= j < n ==> IsNotDot(t[13..][j]) by {
      forall j | 0 <= j < n ensures IsNotDot(t[13..][j]) {
        assert t[13..][j] == name[j];
      }
    }
    assert t[13..][n] == '.';
    RunIs(t[13..], IsNotDot, n);
  }

  /** A local match ends before a position `k > 0` where a local import
      starts. */
  lemma LocalStopsBefore(t: string, k: nat)
    requires 0 < k && k + 13 <= |t| && t[k..k + 13] == LocalPrefix
    ensures LocalAt(t).Some? ==> LocalAt(t).value.len <= k
  {
    if LocalAt(t).Some? {
      assert t[..13] == LocalPrefix;
      assert forall i :: 0 <= i < 13 ==> t[i] == LocalPrefix[i];
      forall i | 1 <= i < 13 ensures t[i] != 'f' {
        LocalPrefixHasOneF(i);
      }
      LocalPrefixChars(t, k);
      assert k >= 13;
      var n := Run(t[13..], IsNotDot);
      assert t[13..][k + 5 - 13] == t[k + 5];
      assert 13 + n <= k + 5;
      assert t[13 + n..13 + n + 4] == ".js\"";
      var tail := t[13 + n..13 + n + 4];
      assert tail[0] == '.' && tail[1] == 'j' && tail[2] == 's' && tail[3] == '"';
      assert t[13 + n] == '.' && t[13 + n + 1] == 'j' && t[13 + n + 2] == 's' && t[13 + n + 3] == '"';
      assert 13 + n + 4 <= k;
    }
  }

  lemma LocalPrefixChars(t: string, k: nat)
    requires k + 13 <= |t| && t[k..k + 13] == LocalPrefix
    ensures t[k] == 'f' && t[k + 1] == 'r' && t[k + 2] == 'o' && t[k + 3] == 'm' && t[k + 4] == '"'
    ensures t[k + 5] == '.' && t[k + 6] == '/'
  {
    assert t[k..k + 13][5] == '.' && t[k..k + 13][6] == '/';
  }

  lemma LocalAtShrink(v: string, c: string)
    requires c <= v
    ensures LocalAt(v).Some? && LocalAt(v).value.len <= |c| ==> LocalAt(c) == LocalAt(v)
  {
    if LocalAt(v).Some? && LocalAt(v).value.len <= |c| {
      LocalAtPrefix(v, c);
    }
  }

  lemma LocalAtExtend(c: string, u: string)
    requires c <= u
    ensures LocalAt(c).Some? ==> LocalAt(u) == LocalAt(c)
  {
    if LocalAt(c).Some? {
      LocalAtPrefix(c, u);
    }
  }

  /** In the rewritten text no local match starts in the part copied from
      a text without local matches. */
  lemma CopiedLocalFree(s: string, q: nat, name: string, w: string)
    requires q <= |s| && LocalFree(s)
    ensures forall p :: 0 <= p < q ==> LocalFrom(s[..q] + (LocalImport(name) + w), p).None?
  {
    var c := s[..q];
    var t := c + (LocalImport(name) + w);
    assert t[q..q + 13] == LocalPrefix;
    forall p | 0 <= p < q ensures LocalFrom(t, p).None? {
      var cp := c[p..];
      assert t[p..][q - p..q - p + 13] == LocalPrefix;
      LocalStopsBefore(t[p..], q - p);
      LocalAtShrink(t[p..], cp);
      assert LocalFrom(s, p).None?;
      LocalAtExtend(cp, s[p..]);
    }
  }

  /** `findall` finds nothing before position `q` when no match starts
      there. */
  lemma {:induction false} LocalDepsSkip(t: string, q: nat)
    requires q <= |t|
    requires forall p :: 0 <= p < q ==> LocalFrom(t, p).None?
    ensures LocalDeps(t) == LocalDeps(t[q..])
    decreases q
  {
    if q > 0 {
      assert t[0..] == t;
      assert LocalFrom(t, 0).None?;
      forall p | 0 <= p < q - 1 ensures LocalFrom(t[1..], p).None? {
        assert t[1..][p..] == t[p + 1..];
        assert LocalFrom(t, p + 1).None?;
      }
      LocalDepsSkip(t[1..], q - 1);
      assert t[1..][q - 1..] == t[q..];
    } else {
      assert t[0..] == t;
    }
  }

  /** The dependencies `_LOCAL_RE` finds in a rewritten module are the
      dependencies `lang_deps` found before the rewrite, in the same order,
      provided the module held no local import of its own. */
  lemma {:induction false} LocalOfRewrite(s: string)
    requires LocalFree(s)
    ensures LocalDeps(Rewrite(s)) == LangDeps(s)
    decreases |s|
  {
    match FirstImport(s)
    case None =>
      RewriteIdentity(s);
      LocalFreeNoDeps(s);
    case Some(q) =>
      var m := ImportFrom(s, q).value;
      var rest := s[q..][m.len..];
      var r := LocalImport(m.name);
      var w := Rewrite(rest);
      RewriteAtFirst(s, q);
      LangDepsAtFirst(s, q);
      RewriteMatch(s[q..]);
      assert |rest| < |s|;
      assert LocalFree(rest) by {
        LocalFreeSuffix(s, q);
        LocalFreeSuffix(s[q..], m.len);
      }
      LocalOfRewrite(rest);
      var t := s[..q] + (r + w);
      CopiedLocalFree(s, q, m.name, w);
      LocalDepsSkip(t, q);
      assert t[q..] == r + w;
      LocalAtLocalImport(m.name, w);
      assert (r + w)[|r|..] == w;
  }

  // ---------------------------------------------------------------------
  // The URL pattern of the offline test fetch:
  // re.search(r"/(langs|themes)@[^/]+/es2022/(.+)\.mjs$", url)
  // ---------------------------------------------------------------------

  /** The two groups of a match: the package and the module name. */
  datatype UrlMatch = UrlMatch(pkg: string, name: string)

  predicate IsNotSlash(c: char) {
    c != '/'
  }

  predicate NoNewline(s: string) {
    forall j :: 0 <= j < |s| ==> s[j] != '\n'
  }

  /** `(.+)\.mjs$` on what follows `/es2022/`: the greedy group is tried
      before `.mjs` at the very end, then before `.mjs` and a final newline,
      which `$` also accepts. */
  function NameBeforeMjs(g: string): (r: Option<string>)
    ensures r.Some? ==> r.value != [] && NoNewline(r.value)
  {
    if |g| >= 5 && g[|g| - 4..] == ".mjs" && NoNewline(g[..|g| - 4]) then Some(g[..|g| - 4])
    else if |g| >= 6 && g[|g| - 5..] == ".mjs\n" && NoNewline(g[..|g| - 5]) then Some(g[..|g| - 5])
    else None
  }

  /** The match at the start of `t`, if any. The version run `[^/]+` is
      followed by `/`, so only its greedy length can succeed. */
  function UrlAt(t: string): (m: Option<UrlMatch>)
    ensures m.Some? ==> |t| >= 2 && t[0] == '/' && (t[1] == 'l' || t[1] == 't')
  {
    if |t| >= 7 && t[0] == '/' then
      var p := if t[1..6] == "langs" then 5 else if |t| >= 8 && t[1..7] == "themes" then 6 else 0;
      if p > 0 && 1 + p < |t| then
        assert t[1] == t[1..6][0];
        VersionPathAt(t, 1 + p)
      else None
    else None
  }

  /** The rest of the pattern, `@[^/]+/es2022/(.+)\.mjs$`, after the
      package word that ends at `a`. */
  function VersionPathAt(t: string, a: nat): (m: Option<UrlMatch>)
    requires 1 <= a < |t|
  {
    if t[a] == '@' then
      var v := Run(t[a + 1..], IsNotSlash);
      var b := a + 1 + v;
      if v > 0 && b + 8 <= |t| && t[b..b + 8] == "/es2022/" then
        match NameBeforeMjs(t[b + 8..])
        case Some(name) => Some(UrlMatch(t[1..a], name))
        case None => None
      else None
    else None
  }

  /** `re.search`: the match at the first position where one starts. */
  function SearchUrl(t: string): (m: Option<UrlMatch>)
    decreases |t|
  {
    if UrlAt(t).Some? then UrlAt(t)
    else if t == [] then None
    else SearchUrl(t[1..])
  }

  /** The search skips positions where no match can start: those that do
      not hold `/` followed by `l` or `t`. */
  lemma {:induction false} SearchUrlSkip(t: string, q: nat)
    requires q <= |t|
    requires forall j :: 0 <= j < q ==> t[j] != '/' || j + 1 >= |t| || (t[j + 1] != 'l' && t[j + 1] != 't')
    ensures SearchUrl(t) == SearchUrl(t[q..])
    decreases q
  {
    if q > 0 {
      assert UrlAt(t).None?;
      assert forall j :: 0 <= j < q - 1 ==> t[1..][j] == t[j + 1];
      SearchUrlSkip(t[1..], q - 1);
      assert t[1..][q - 1..] == t[q..];
    } else {
      assert t[0..] == t;
    }
  }

  /** The package word, `@`, the version and `/es2022/`, then the name. */
  lemma UrlAtEsmPath(kind: string, name: string, version: string)
    requires version != [] && forall j :: 0 <= j < |version| ==> version[j] != '/'
    requires name != [] && NoNewline(name)
    ensures UrlAt("/" + Package(kind) + "@" + version + "/es2022/" + name + ".mjs")
         == Some(UrlMatch(Package(kind), name))
  {
    var pkg := Package(kind);
    var rest := "@" + version + "/es2022/" + name + ".mjs";
    var t := "/" + pkg + "@" + version + "/es2022/" + name + ".mjs";
    assert t == "/" + pkg + rest;
    PackageWord(kind, rest);
    VersionPathOfParts(pkg, version, name);
  }

  /** The package word is recognised whatever follows it. */
  lemma PackageWord(kind: string, rest: string)
    requires rest != []
    ensures var t := "/" + Package(kind) + rest;
      |t| >= 7 && t[0] == '/'
      && (if t[1..6] == "langs" then 5 else if |t| >= 8 && t[1..7] == "themes" then 6 else 0) == |Package(kind)|
  {
    var t := "/" + Package(kind) + rest;
    if kind == "lang" {
      assert t[1..6] == "langs";
    } else {
      assert t[1..6] != "langs" by { assert t[1..6][0] == 't'; }
      assert t[1..7] == "themes";
    }
  }

  /** After the package word: `@`, a version without `/`, `/es2022/`, the
      name and `.mjs`. */
  lemma VersionPathOfParts(pkg: string, version: string, name: string)
    requires version != [] && forall j :: 0 <= j < |version| ==> version[j] != '/'
    requires name != [] && NoNewline(name)
    ensures var t := "/" + pkg + "@" + version + "/es2022/" + name + ".mjs";
      VersionPathAt(t, 1 + |pkg|) == Some(UrlMatch(pkg, name))
  {
    var t := "/" + pkg + "@" + version + "/es2022/" + name + ".mjs";
    var a := 1 + |pkg|;
    UrlRegroup(pkg, version, name);
    HeadParts(pkg, version + ("/es2022/" + (name + ".mjs")));
    VersionPathOfSuffix(t, a, version, name);
  }

  lemma VersionPathOfSuffix(t: string, a: nat, version: string, name: string)
    requires 1 <= a < |t| && t[a] == '@'
    requires t[a + 1..] == version + ("/es2022/" + (name + ".mjs"))
    requires version != [] && forall j :: 0 <= j < |version| ==> version[j] != '/'
    requires name != [] && NoNewline(name)
    ensures VersionPathAt(t, a) == Some(UrlMatch(t[1..a], name))
  {
    var b := a + 1 + |version|;
    var g := name + ".mjs";
    VersionSuffixParts(t, a + 1, version, g);
    NameOfMjs(name);
    VersionPathIs(t, a, |version|, g, name);
  }

  lemma VersionSuffixParts(t: string, i: nat, version: string, g: string)
    requires i <= |t| && t[i..] == version + ("/es2022/" + g)
    requires forall j :: 0 <= j < |version| ==> version[j] != '/'
    ensures var b := i + |version|;
      Run(t[i..], IsNotSlash) == |version| && b + 8 <= |t| && t[b..b + 8] == "/es2022/" && t[b + 8..] == g
  {
    var r := "/es2022/" + g;
    VersionRun(t, i, version, r);
    DropFront(t, i, version, r);
    Es2022Parts(t, i + |version|, g);
  }

  lemma UrlRegroup(pkg: string, version: string, name: string)
    ensures "/" + pkg + "@" + version + "/es2022/" + name + ".mjs"
         == ("/" + pkg + "@") + (version + ("/es2022/" + (name + ".mjs")))
  {
  }

  lemma HeadParts(pkg: string, x: string)
    ensures var t := ("/" + pkg + "@") + x;
      t[1..1 + |pkg|] == pkg && t[1 + |pkg|] == '@' && t[2 + |pkg|..] == x
  {
  }

  lemma DropFront(t: string, i: nat, v: string, r: string)
    requires i <= |t| && t[i..] == v + r
    ensures t[i + |v|..] == r
  {
    assert t[i + |v|..] == t[i..][|v|..];
  }

  lemma Es2022Parts(t: string, b: nat, g: string)
    requires b <= |t| && t[b..] == "/es2022/" + g
    ensures b + 8 <= |t| && t[b..b + 8] == "/es2022/" && t[b + 8..] == g
  {
    assert t[b..b + 8] == t[b..][..8];
    assert t[b + 8..] == t[b..][8..];
  }

  lemma VersionPathIs(t: string, a: nat, v: nat, g: string, name: string)
    requires 1 <= a < |t| && t[a] == '@' && 0 < v && a + 1 + v + 8 <= |t|
    requires Run(t[a + 1..], IsNotSlash) == v
    requires t[a + 1 + v..a + 1 + v + 8] == "/es2022/"
    requires t[a + 1 + v + 8..] == g && NameBeforeMjs(g) == Some(name)
    ensures VersionPathAt(t, a) == Some(UrlMatch(t[1..a], name))
  {
  }

  lemma VersionRun(t: string, i: nat, version: string, rest: string)
    requires i <= |t| && t[i..] == version + rest && rest != [] && rest[0] == '/'
    requires forall j :: 0 <= j < |version| ==> version[j] != '/'
    ensures Run(t[i..], IsNotSlash) == |version|
  {
    var u := t[i..];
    assert forall j :: 0 <= j < |version| ==> IsNotSlash(u[j]) by {
      forall j | 0 <= j < |version| ensures IsNotSlash(u[j]) {
        assert u[j] == version[j];
      }
    }
    assert u[|version|] == rest[0];
    RunIs(u, IsNotSlash, |version|);
  }

  lemma NameOfMjs(name: string)
    requires name != [] && NoNewline(name)
    ensures NameBeforeMjs(name + ".mjs") == Some(name)
  {
    var g := name + ".mjs";
    assert g[|g| - 4..] == ".mjs" && g[..|g| - 4] == name;
  }

  /** The offline test fetch recovers the package and the name from every
      URL `esm_url` builds, whatever the kind, for a version without `/`
      and a name without a newline. */
  lemma EsmUrlRecovered(kind: string, name: string, version: string)
    requires version != [] && forall j :: 0 <= j < |version| ==> version[j] != '/'
    requires name != [] && NoNewline(name)
    ensures SearchUrl(EsmUrl(kind, name, version)) == Some(UrlMatch(Package(kind), name))
  {
    var path := "/" + Package(kind) + "@" + version + "/es2022/" + name + ".mjs";
    EsmUrlSplit(kind, name, version);
    EsmBaseSkipped(path);
    UrlAtEsmPath(kind, name, version);
  }

  lemma EsmUrlSplit(kind: string, name: string, version: string)
    ensures EsmUrl(kind, name, version)
         == EsmBase + ("/" + Package(kind) + "@" + version + "/es2022/" + name + ".mjs")
  {
  }

  /** No match can start inside `https://esm.sh/@shikijs`. */
  lemma EsmBaseSkipped(path: string)
    requires path != [] && path[0] == '/'
    ensures SearchUrl(EsmBase + path) == SearchUrl(path)
  {
    var url := EsmBase + path;
    EsmBaseChars();
    forall j | 0 <= j < 23
      ensures url[j] != '/' || j + 1 >= |url| || (url[j + 1] != 'l' && url[j + 1] != 't')
    {
      assert url[j] == EsmBase[j];
      if j < 22 {
        assert url[j + 1] == EsmBase[j + 1];
      }
    }
    SearchUrlSkip(url, 23);
    assert url[23..] == path;
  }

  lemma EsmBaseChars()
    ensures |EsmBase| == 23
    ensures forall j :: 0 <= j < 22 ==> EsmBase[j] != '/' || (EsmBase[j + 1] != 'l' && EsmBase[j + 1] != 't')
    ensures EsmBase[22] != '/'
  {
    assert EsmBase == ['h', 't', 't', 'p', 's', ':', '/', '/', 'e', 's', 'm', '.', 's', 'h', '/', '@',
                       's', 'h', 'i', 'k', 'i', 'j', 's'];
  }

  // ---------------------------------------------------------------------
  // Alias stubs
  // ---------------------------------------------------------------------

  /** The `bash` stub of the grammar package, which re-exports
      `shellscript`. */
  const BashStub := StubHead + "from\"./" + "shellscript" + StubTail

  const StubHead := "import{default as o}"
  const StubTail := ".mjs\";export{o as default};"

  /** The only `f` of the head is followed by `a`. */
  lemma StubHeadHasNoFrom()
    ensures |StubHead| == 20
    ensures forall p :: 0 <= p < 20 ==> StubHead[p] != 'f' || (p < 19 && StubHead[p + 1] != 'r')
  {
    var h := StubHead;
    assert h == ['i', 'm', 'p', 'o', 'r', 't', '{', 'd', 'e', 'f', 'a', 'u', 'l', 't', ' ', 'a', 's', ' ', 'o', '}'];
  }

  /** The import the stub starts with after its head. */
  lemma StubImport()
    ensures ImportAt("from\"./" + "shellscript" + StubTail) == Some(Match(23, "shellscript"))
  {
    var name := "shellscript";
    assert AllImportNameChars(name) by {
      forall j | 0 <= j < |name| ensures IsImportNameChar(name[j]) {
        assert 'a' <= name[j] <= 'z';
      }
    }
    assert StubTail == ".mjs\"" + ";export{o as default};";
    ImportAtMjs(name, ";export{o as default};");
  }

  /** `from"./NAME.mjs"` is a match with group `NAME`, whatever follows. */
  lemma ImportAtMjs(name: string, u: string)
    requires name != [] && AllImportNameChars(name)
    ensures ImportAt("from\"./" + name + (".mjs\"" + u)) == Some(Match(|name| + 12, name))
  {
    var t := "from\"./" + name + (".mjs\"" + u);
    var n := |name|;
    assert t[..7] == "from\"./";
    assert t[0] == 'f' && t[1] == 'r' && t[2] == 'o' && t[3] == 'm';
    assert t[4] == '"' && t[5] == '.' && t[6] == '/';
    assert t[7..7 + n] == name;
    forall j | 7 <= j < 7 + n ensures IsImportNameChar(t[j]) {
      assert t[j] == name[j - 7];
    }
    assert t[7 + n..7 + n + 5] == ".mjs\"";
    assert t[7 + n] == '.' && t[7 + n + 1] == 'm' && t[7 + n + 2] == 'j' && t[7 + n + 3] == 's' && t[7 + n + 4] == '"';
    ImportAtOfParts(t, 4, n);
  }

  /** The search over the stub finds the import after its 20-character
      head, and `is_alias_module` names the module it re-exports. */
  lemma BashStubIsAlias()
    ensures IsAliasModule(BashStub) == Some("shellscript")
  {
    StubMatches();
    FirstImportIs(BashStub, 20);
    assert |BashStub| < 200;
  }

  /** The stub's matches: none in its head, one right after it. */
  lemma StubMatches()
    ensures |BashStub| >= 20 && NoImportBefore(BashStub, 20)
    ensures ImportFrom(BashStub, 20) == Some(Match(23, "shellscript"))
  {
    var s := BashStub;
    var head := StubHead;
    var t := "from\"./" + "shellscript" + StubTail;
    assert s == head + t;
    StubHeadHasNoFrom();
    assert s[20..] == t;
    StubImport();
    forall p | 0 <= p < 20 ensures ImportFrom(s, p).None? {
      assert s[p..][0] == head[p];
      assert p < 19 ==> s[p..][1] == head[p + 1];
    }
  }

  /** `re.search` finds the match at `q` when none starts before it. */
  lemma FirstImportIs(s: string, q: nat)
    requires q <= |s| && ImportFrom(s, q).Some? && NoImportBefore(s, q)
    ensures FirstImport(s) == Some(q)
    ensures SearchImport(s) == Some(ImportFrom(s, q).value.name)
  {
    FirstImportSome(s, q);
  }

  lemma {:induction false} FirstImportSome(s: string, q: nat)
    requires q <= |s| && ImportFrom(s, q).Some? && NoImportBefore(s, q)
    ensures FirstImport(s) == Some(q)
    decreases q
  {
    ImportFromStart(s);
    if q > 0 {
      ImportNoneTail(s, q);
      ImportFromTail(s, q - 1);
      FirstImportSome(s[1..], q - 1);
    }
  }

  /** A module of 200 characters or more is never an alias. */
  lemma LongModuleIsNoAlias(text: string)
    requires |text| >= 200
    ensures IsAliasModule(text).None?
  {
  }
}
