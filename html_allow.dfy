/** The raw-HTML allow-list of the card renderer (src/markdown.ts): the
    `ALLOWED` pattern, `sanitize`, and the `<br>` step of `decodeField`. */
module HtmlAllow {
  import opened Common

  /** The tag names `ALLOWED` lets through, in lower case. */
  const AllowedNames: set<string> := {"img", "a", "b", "i", "em", "strong", "br", "kbd"}

  /** `/^<\/?(img|a|b|i|em|strong|br|kbd)(\s[^>]*)?>$/i.test(s)`, as a scan:
      after `<` and an optional `/` comes a name that runs to the first white
      space, and everything after the name up to the final `>` is free of
      `>`. */
  predicate AllowedTag(s: string) {
    && |s| >= 2 && s[0] == '<' && s[|s| - 1] == '>'
    && var t := AfterSlash(s);
       var k := FirstJsSpace(t);
       Lower(t[..k]) in AllowedNames && '>' !in t[k..]
  }

  /** The text of a tag with the given slash, name and attribute part. */
  function TagText(close: bool, name: string, attrs: string): string {
    "<" + (if close then "/" else "") + name + attrs + ">"
  }

  /** Reference reading of the pattern: an optional `/`, one of the names in
      any letter case, and then either nothing or one white-space character
      followed by anything but `>`. */
  predicate TagParts(name: string, attrs: string) {
    Lower(name) in AllowedNames
    && (attrs == [] || (IsJsSpace(attrs[0]) && '>' !in attrs))
  }

  ghost predicate MatchesAllowed(s: string) {
    exists close: bool, name: string, attrs: string ::
      TagParts(name, attrs) && s == TagText(close, name, attrs)
  }

  /** The allowed names are spelled with lower-case letters only. */
  lemma AllowedNamesAreLetters(l: string)
    requires l in AllowedNames
    ensures l != [] && forall j :: 0 <= j < |l| ==> 'a' <= l[j] <= 'z'
  {
    if l == "img" {} else if l == "a" {} else if l == "b" {} else if l == "i" {}
    else if l == "em" {} else if l == "strong" {} else if l == "br" {} else {}
  }

  /** A name the pattern accepts, in any case, consists of letters. */
  lemma NamesHaveNoSpace(name: string)
    requires Lower(name) in AllowedNames
    ensures name != [] && name[0] != '/' && '>' !in name
    ensures forall j :: 0 <= j < |name| ==> !IsJsSpace(name[j])
  {
    AllowedNamesAreLetters(Lower(name));
    LettersUnderLower(name);
    assert name != [] && forall j :: 0 <= j < |name| ==> IsLetter(name[j]);
    LettersAreNoSpace(name);
  }

  predicate IsLetter(c: char) {
    ('a' <= c <= 'z') || ('A' <= c <= 'Z')
  }

  lemma LettersUnderLower(name: string)
    requires Lower(name) != [] && forall j :: 0 <= j < |Lower(name)| ==> 'a' <= Lower(name)[j] <= 'z'
    ensures name != [] && forall j :: 0 <= j < |name| ==> IsLetter(name[j])
  {
    forall j | 0 <= j < |name|
      ensures IsLetter(name[j])
    {
      assert Lower(name)[j] == LowerChar(name[j]);
    }
  }

  lemma LettersAreNoSpace(name: string)
    requires forall j :: 0 <= j < |name| ==> IsLetter(name[j])
    ensures forall j :: 0 <= j < |name| ==> !IsJsSpace(name[j]) && name[j] != '>' && name[j] != '/'
  {
  }

  lemma SpaceIndexAfterName(name: string, attrs: string)
    requires forall j :: 0 <= j < |name| ==> !IsJsSpace(name[j])
    requires attrs == [] || IsJsSpace(attrs[0])
    ensures FirstJsSpace(name + attrs) == |name|
  {
    var t := name + attrs;
    assert forall j :: 0 <= j < |name| ==> t[j] == name[j];
    assert attrs != [] ==> t[|name|] == attrs[0];
  }

  /** The part of a bracketed tag after `<` and the optional `/`. */
  function AfterSlash(s: string): string
    requires |s| >= 2
  {
    var body := s[1..|s| - 1];
    if |body| > 0 && body[0] == '/' then body[1..] else body
  }

  lemma TextOfParts(s: string, k: nat)
    requires |s| >= 2 && s[0] == '<' && s[|s| - 1] == '>'
    requires k <= |AfterSlash(s)|
    ensures var close := |s| >= 3 && s[1] == '/';
      s == TagText(close, AfterSlash(s)[..k], AfterSlash(s)[k..])
  {
    var close := |s| >= 3 && s[1] == '/';
    var t := AfterSlash(s);
    Bracketed(s);
    SlashAndRest(s);
    TagTextShape(close, t[..k], t[k..]);
    assert t[..k] + t[k..] == t;
  }

  /** The body of a bracketed tag is its optional `/` and what follows. */
  lemma SlashAndRest(s: string)
    requires |s| >= 2
    ensures (if |s| >= 3 && s[1] == '/' then "/" else "") + AfterSlash(s) == s[1..|s| - 1]
  {
    var body := s[1..|s| - 1];
    if |s| >= 3 && s[1] == '/' {
      assert body == [body[0]] + body[1..];
    }
  }

  lemma Bracketed(s: string)
    requires |s| >= 2 && s[0] == '<' && s[|s| - 1] == '>'
    ensures s == "<" + s[1..|s| - 1] + ">"
  {
    assert s == s[..1] + s[1..|s| - 1] + s[|s| - 1..];
  }

  lemma TagTextShape(close: bool, name: string, attrs: string)
    ensures TagText(close, name, attrs) == "<" + ((if close then "/" else "") + (name + attrs)) + ">"
  {
  }

  lemma PartsOfText(close: bool, name: string, attrs: string)
    ensures var s := TagText(close, name, attrs);
      |s| >= 2 && s[0] == '<' && s[|s| - 1] == '>'
      && (name != [] && name[0] != '/' ==> AfterSlash(s) == name + attrs)
  {
    var s := TagText(close, name, attrs);
    var mid := (if close then "/" else "") + (name + attrs);
    assert s == "<" + mid + ">";
    assert s[1..|s| - 1] == mid;
    if close {
      assert mid[1..] == name + attrs;
    }
  }

  lemma AllowedTagMatches(s: string)
    requires AllowedTag(s)
    ensures MatchesAllowed(s)
  {
    var t := AfterSlash(s);
    var k := FirstJsSpace(t);
    TextOfParts(s, k);
    assert TagParts(t[..k], t[k..]);
  }

  lemma MatchesAllowedTag(close: bool, name: string, attrs: string)
    requires TagParts(name, attrs)
    ensures AllowedTag(TagText(close, name, attrs))
  {
    NamesHaveNoSpace(name);
    SpaceIndexAfterName(name, attrs);
    PartsOfText(close, name, attrs);
    var t := name + attrs;
    assert t[..|name|] == name && t[|name|..] == attrs;
  }

  /** The scan decides exactly the pattern. */
  lemma AllowedTagIsPattern(s: string)
    ensures AllowedTag(s) <==> MatchesAllowed(s)
  {
    if AllowedTag(s) {
      AllowedTagMatches(s);
    }
    if MatchesAllowed(s) {
      var close: bool, name: string, attrs: string :|
        TagParts(name, attrs) && s == TagText(close, name, attrs);
      MatchesAllowedTag(close, name, attrs);
    }
  }

  /** `sanitize`: the raw HTML itself, untrimmed, when its trimmed form is a
      single allowed tag; the empty string otherwise. */
  function Sanitize(html: string): (r: string)
    ensures r == html || r == ""
    ensures r != "" <==> html != "" && AllowedTag(Trim(JavaScript, html))
  {
    if AllowedTag(Trim(JavaScript, html)) then html else ""
  }

  /** An allowed tag contains exactly one `>`, its last character: text
      around tags, or an opening and a closing tag together, are refused. */
  lemma AllowedTagSingleClose(s: string)
    requires AllowedTag(s)
    ensures forall j :: 0 <= j < |s| - 1 ==> s[j] != '>'
  {
    AllowedTagIsPattern(s);
    var close: bool, name: string, attrs: string :|
      TagParts(name, attrs) && s == TagText(close, name, attrs);
    NamesHaveNoSpace(name);
    var body := (if close then "/" else "") + (name + attrs);
    TagTextShape(close, name, attrs);
    assert '>' !in body;
    assert s[1..|s| - 1] == body;
    forall j | 0 <= j < |s| - 1 ensures s[j] != '>' {
      if j > 0 {
        assert s[j] == body[j - 1];
      }
    }
  }

  /** Two tags with text between them are not one tag. */
  lemma SanitizeRefusesMarkup(a: string, b: string)
    requires a != [] && a[0] == '<' && b != [] && b[|b| - 1] == '>'
    ensures Sanitize(a + ">x" + b) == ""
  {
    var h := a + ">x" + b;
    TrimOfTrimmed(JavaScript, h);
    assert h[|a|] == '>';
    if AllowedTag(h) {
      AllowedTagSingleClose(h);
    }
  }

  /** Whatever follows the name after a white-space character is taken as
      it is, as long as it holds no `>` (for example event-handler
      attributes). */
  lemma AttributesNotInspected(close: bool, name: string, c: char, rest: string)
    requires Lower(name) in AllowedNames && IsJsSpace(c) && '>' !in rest
    ensures AllowedTag(TagText(close, name, [c] + rest))
  {
    MatchesAllowedTag(close, name, [c] + rest);
  }

  lemma SanitizeRefusesScript()
    ensures Sanitize("<script>") == ""
  {
    var s := "<script>";
    TrimOfTrimmed(JavaScript, s);
    ScriptNameRefused();
  }

  lemma ScriptNameRefused()
    ensures !AllowedTag("<script>")
  {
    ScriptNotAllowedName();
    BareTagAllowedIff(false, "script");
    assert TagText(false, "script", "") == "<script>";
  }

  lemma ScriptNotAllowedName()
    ensures Lower("script") !in AllowedNames
  {
    LowerOfLowerCase("script");
  }

  /** A tag without attributes whose name is made of letters passes
      exactly when its name is allowed. */
  lemma BareTagAllowedIff(close: bool, name: string)
    requires forall j :: 0 <= j < |name| ==> IsLetter(name[j])
    requires name != []
    ensures AllowedTag(TagText(close, name, "")) <==> Lower(name) in AllowedNames
  {
    LettersAreNoSpace(name);
    PartsOfText(close, name, "");
    assert name + "" == name;
    FirstJsSpaceOfWord(name);
    assert name[..|name|] == name;
  }

  lemma FirstJsSpaceOfWord(t: string)
    requires forall j :: 0 <= j < |t| ==> !IsJsSpace(t[j])
    ensures FirstJsSpace(t) == |t|
  {
  }

  lemma LowerOfLowerCase(t: string)
    requires forall j :: 0 <= j < |t| ==> 'a' <= t[j] <= 'z'
    ensures Lower(t) == t
  {
    assert forall j :: 0 <= j < |t| ==> Lower(t)[j] == t[j];
  }

  /** White space around an allowed tag is kept in the output: the test
      trims, the result does not. */
  lemma SanitizeKeepsPadding(p: string, tag: string, q: string)
    requires AllSpace(JavaScript, p) && AllSpace(JavaScript, q) && AllowedTag(tag)
    ensures Sanitize(p + tag + q) == p + tag + q
  {
    TrimPadded(JavaScript, p, tag, q);
  }

  lemma SanitizeKeepsClosingTag()
    ensures Sanitize("</kbd>") == "</kbd>"
  {
    TrimOfTrimmed(JavaScript, "</kbd>");
    ClosingKbdAllowed();
  }

  lemma ClosingKbdAllowed()
    ensures AllowedTag("</kbd>")
  {
    KbdAllowedName();
    BareTagAllowedIff(true, "kbd");
    assert TagText(true, "kbd", "") == "</kbd>";
  }

  lemma KbdAllowedName()
    ensures Lower("kbd") in AllowedNames
  {
    LowerOfLowerCase("kbd");
  }

  // ---------------------------------------------------------------------
  // decodeField: `text.replace(/<br\s*\/?>/gi, "\n")`
  // ---------------------------------------------------------------------

  /** Length of a `<br\s*\/?>` match at the start of `s`, if there is one. */
  function BreakAt(s: string): (n: Option<nat>)
    ensures n.Some? ==> 4 <= n.value <= |s| && s[0] == '<' && s[n.value - 1] == '>'
  {
    if |s| >= 3 && s[0] == '<' && LowerChar(s[1]) == 'b' && LowerChar(s[2]) == 'r' then
      var k := 3 + JsSpaceRun(s[3..]);
      var k' := if k < |s| && s[k] == '/' then k + 1 else k;
      if k' < |s| && s[k'] == '>' then Some(k' + 1) else None
    else None
  }

  /** Every `<br>`, `<br/>`, `<BR />`, ... replaced by a line feed, scanning
      left to right. */
  function BreaksToNewlines(s: string): (r: string)
    ensures |r| <= |s|
    decreases |s|
  {
    if s == [] then []
    else match BreakAt(s)
      case Some(n) => "\n" + BreaksToNewlines(s[n..])
      case None => [s[0]] + BreaksToNewlines(s[1..])
  }

  /** Line feeds written as `<br>`. */
  function NewlinesToBreaks(s: string): (r: string)
  {
    if s == [] then []
    else (if s[0] == '\n' then "<br>" else [s[0]]) + NewlinesToBreaks(s[1..])
  }

  /** Text without `<` survives the step unchanged. */
  lemma {:induction false} BreaksToNewlinesPlain(s: string)
    requires '<' !in s
    ensures BreaksToNewlines(s) == s
    decreases |s|
  {
    if s != [] {
      assert '<' !in s[1..];
      BreaksToNewlinesPlain(s[1..]);
    }
  }

  lemma BreakAtBr(rest: string)
    ensures var e := "<br>" + rest; BreakAt(e) == Some(4) && e[4..] == rest
  {
    var e := "<br>" + rest;
    assert e[3..] == ">" + rest;
  }

  lemma BreakAtOther(c: char, rest: string)
    requires c != '<'
    ensures var e := [c] + rest; BreakAt(e).None? && e[1..] == rest
  {
  }

  /** For text without `<`, decoding undoes encoding line feeds as `<br>`. */
  lemma {:induction false} BreaksRoundTrip(s: string)
    requires '<' !in s
    ensures BreaksToNewlines(NewlinesToBreaks(s)) == s
    decreases |s|
  {
    if s != [] {
      var rest := NewlinesToBreaks(s[1..]);
      BreaksRoundTrip(s[1..]);
      if s[0] == '\n' {
        BreakAtBr(rest);
      } else {
        BreakAtOther(s[0], rest);
      }
    }
  }
}
