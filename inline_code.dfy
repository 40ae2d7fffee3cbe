/** The `inline-code-lang` core rule of src/markdown.ts and src/main.ts: a
    `code_inline` token directly followed by a text token that starts with
    `{lang}` or `{.lang}` takes `lang` as its language, and the tag is cut
    from the text (the text token disappears when nothing is left). */
module InlineCode {
  import opened Common

  const CodeInlineKind := "code_inline"
  const TextKind := "text"
  const InlineKind := "inline"

  /** A child token of an inline token; `lang` is the `meta.lang` the rule
      sets (`None` while `meta` holds no language). */
  datatype Token = Token(kind: string, content: string, lang: Option<string>)

  // ---------------------------------------------------------------------
  // The tag pattern: `^\{\.?([\w-]+)\}(.*)$` (src/markdown.ts) and
  // `^\{\.?(\w+)\}(.*)$` (src/main.ts)
  // ---------------------------------------------------------------------

  /** A character of the captured name; `-` only in the first pattern. */
  predicate IsTagChar(c: char, allowHyphen: bool) {
    IsJsWordChar(c) || (allowHyphen && c == '-')
  }

  /** Length of the longest prefix of `s` made of name characters. */
  function NameRun(s: string, allowHyphen: bool): (n: nat)
    ensures n <= |s|
    ensures forall j :: 0 <= j < n ==> IsTagChar(s[j], allowHyphen)
    ensures n < |s| ==> !IsTagChar(s[n], allowHyphen)
  {
    if s != [] && IsTagChar(s[0], allowHyphen) then 1 + NameRun(s[1..], allowHyphen) else 0
  }

  predicate NoLineTerminator(s: string) {
    forall j :: 0 <= j < |s| ==> !IsJsLineTerminator(s[j])
  }

  datatype TagSplit = TagSplit(lang: string, rest: string)

  /** The captures of the tag pattern, as a left-to-right scan: `{`, an
      optional `.`, the longest run of name characters (at least one), `}`,
      and a remainder without line terminators (`.` stops at them and `$`
      only matches at the very end). */
  function TagMatch(content: string, allowHyphen: bool): (m: Option<TagSplit>)
    ensures m.Some? ==> |m.value.rest| + 3 <= |content|
  {
    if content != [] && content[0] == '{' then
      var start := if |content| >= 2 && content[1] == '.' then 2 else 1;
      var n := NameRun(content[start..], allowHyphen);
      var close := start + n;
      if n >= 1 && close < |content| && content[close] == '}' && NoLineTerminator(content[close + 1..])
      then Some(TagSplit(content[start..close], content[close + 1..]))
      else None
    else None
  }

  /** The text a match is read from. */
  function TagText(dot: bool, name: string, rest: string): string {
    "{" + (if dot then "." else "") + name + "}" + rest
  }

  predicate ValidName(name: string, allowHyphen: bool) {
    name != [] && forall j :: 0 <= j < |name| ==> IsTagChar(name[j], allowHyphen)
  }

  lemma TagTextShape(dot: bool, name: string, rest: string)
    requires name != [] && name[0] != '.'
    ensures var c := TagText(dot, name, rest);
      var start := if dot then 2 else 1;
      |c| == start + |name| + 1 + |rest|
      && c[0] == '{' && (|c| >= 2 && c[1] == '.' <==> dot)
      && c[start..start + |name|] == name && c[start + |name|] == '}'
      && c[start + |name| + 1..] == rest
  {
    var c := TagText(dot, name, rest);
    var pre := "{" + (if dot then "." else "");
    assert c == pre + name + "}" + rest;
    if !dot {
      assert c[1] == name[0];
    }
  }

  lemma NameRunOf(name: string, tail: string, allowHyphen: bool)
    requires forall j :: 0 <= j < |name| ==> IsTagChar(name[j], allowHyphen)
    requires tail != [] && !IsTagChar(tail[0], allowHyphen)
    ensures NameRun(name + tail, allowHyphen) == |name|
  {
    var s := name + tail;
    assert forall j :: 0 <= j < |name| ==> s[j] == name[j];
    assert s[|name|] == tail[0];
  }

  /** A match takes the content apart into tag and remainder. */
  lemma TagMatchSound(content: string, allowHyphen: bool)
    requires TagMatch(content, allowHyphen).Some?
    ensures var m := TagMatch(content, allowHyphen).value;
      ValidName(m.lang, allowHyphen) && NoLineTerminator(m.rest)
      && content == TagText(|content| >= 2 && content[1] == '.', m.lang, m.rest)
  {
    var m := TagMatch(content, allowHyphen).value;
    var dot := |content| >= 2 && content[1] == '.';
    var start := if dot then 2 else 1;
    var close := start + |m.lang|;
    TagMatchParts(content, allowHyphen);
    TagTextShape(dot, m.lang, m.rest);
    var c := TagText(dot, m.lang, m.rest);
    SameBySlices(c, content, start, close);
  }

  /** Where the captures of a match lie in the content. */
  lemma TagMatchParts(content: string, allowHyphen: bool)
    requires TagMatch(content, allowHyphen).Some?
    ensures var m := TagMatch(content, allowHyphen).value;
      var start := if |content| >= 2 && content[1] == '.' then 2 else 1;
      var close := start + |m.lang|;
      ValidName(m.lang, allowHyphen) && NoLineTerminator(m.rest)
      && content[0] == '{' && close < |content|
      && m.lang == content[start..close] && content[close] == '}' && m.rest == content[close + 1..]
  {
    var start := if |content| >= 2 && content[1] == '.' then 2 else 1;
    var tail := content[start..];
    var n := NameRun(tail, allowHyphen);
    var lang := content[start..start + n];
    assert TagMatch(content, allowHyphen).value.lang == lang;
    forall j | 0 <= j < |lang| ensures IsTagChar(lang[j], allowHyphen) {
      assert lang[j] == tail[j];
    }
  }

  /** Two sequences of one length that agree on their first one or two
      elements, on `[start..close]`, at `close` and after it are equal. */
  lemma SameBySlices<T>(a: seq<T>, b: seq<T>, start: nat, close: nat)
    requires 1 <= start <= 2 && start <= close < |a| == |b|
    requires a[0] == b[0] && (start == 2 ==> a[1] == b[1])
    requires a[start..close] == b[start..close] && a[close] == b[close] && a[close + 1..] == b[close + 1..]
    ensures a == b
  {
    forall j | 0 <= j < |a| ensures a[j] == b[j] {
      if start <= j < close {
        assert a[j] == a[start..close][j - start] && b[j] == b[start..close][j - start];
      } else if j > close {
        assert a[j] == a[close + 1..][j - close - 1] && b[j] == b[close + 1..][j - close - 1];
      }
    }
  }

  /** Every text of the tag's shape is matched, with exactly its name and
      remainder as captures. */
  lemma TagMatchComplete(dot: bool, name: string, rest: string, allowHyphen: bool)
    requires ValidName(name, allowHyphen) && NoLineTerminator(rest)
    ensures TagMatch(TagText(dot, name, rest), allowHyphen) == Some(TagSplit(name, rest))
  {
    var c := TagText(dot, name, rest);
    TagTextShape(dot, name, rest);
    var start := if dot then 2 else 1;
    if !dot {
      assert c[1] == name[0];
    }
    assert c[start..] == name + ("}" + rest);
    NameRunOf(name, "}" + rest, allowHyphen);
  }

  // ---------------------------------------------------------------------
  // The rule over a list of child tokens
  // ---------------------------------------------------------------------

  /** Position `i` holds a `code_inline` token and `i + 1` a text token
      whose content matches the tag pattern. */
  predicate IsTagPair(ts: seq<Token>, i: int, allowHyphen: bool) {
    0 <= i && i + 1 < |ts| && ts[i].kind == CodeInlineKind && ts[i + 1].kind == TextKind
    && TagMatch(ts[i + 1].content, allowHyphen).Some?
  }

  /** What the loop over `token.children` leaves of a list of children. */
  function Tag(ts: seq<Token>, allowHyphen: bool): (r: seq<Token>)
    ensures |r| <= |ts|
    decreases |ts|
  {
    if IsTagPair(ts, 0, allowHyphen) then
      var m := TagMatch(ts[1].content, allowHyphen).value;
      [ts[0].(lang := Some(m.lang))]
      + (if m.rest == "" then [] else [ts[1].(content := m.rest)])
      + Tag(ts[2..], allowHyphen)
    else if ts == [] then []
    else [ts[0]] + Tag(ts[1..], allowHyphen)
  }

  /** The reference reading of the rule, token by token: a tagged code
      token gains the language, the text right after it loses the tag (and
      goes away when nothing is left), and every other token stays as it
      is. */
  function Piece(ts: seq<Token>, i: nat, allowHyphen: bool): seq<Token>
    requires i < |ts|
  {
    if IsTagPair(ts, i, allowHyphen) then
      [ts[i].(lang := Some(TagMatch(ts[i + 1].content, allowHyphen).value.lang))]
    else if IsTagPair(ts, i - 1, allowHyphen) then
      var rest := TagMatch(ts[i].content, allowHyphen).value.rest;
      if rest == "" then [] else [ts[i].(content := rest)]
    else [ts[i]]
  }

  function Pieces(ts: seq<Token>, k: nat, allowHyphen: bool): seq<Token>
    requires k <= |ts|
    decreases |ts| - k
  {
    if k == |ts| then [] else Piece(ts, k, allowHyphen) + Pieces(ts, k + 1, allowHyphen)
  }

  lemma {:induction false} TagFrom(ts: seq<Token>, k: nat, allowHyphen: bool)
    requires k <= |ts| && !IsTagPair(ts, k - 1, allowHyphen)
    ensures Tag(ts[k..], allowHyphen) == Pieces(ts, k, allowHyphen)
    decreases |ts| - k
  {
    if k == |ts| {
      assert ts[k..] == [];
    } else if IsTagPair(ts, k, allowHyphen) {
      TagStepPair(ts, k, allowHyphen);
      TagFrom(ts, k + 2, allowHyphen);
      PiecesStepPair(ts, k, allowHyphen);
    } else {
      TagStepSkip(ts, k, allowHyphen);
      TagFrom(ts, k + 1, allowHyphen);
    }
  }

  /** `Tag` at a tag pair: the two pieces of the pair, then the rest. */
  lemma TagStepPair(ts: seq<Token>, k: nat, allowHyphen: bool)
    requires IsTagPair(ts, k, allowHyphen)
    ensures Tag(ts[k..], allowHyphen)
      == Piece(ts, k, allowHyphen) + Piece(ts, k + 1, allowHyphen) + Tag(ts[k + 2..], allowHyphen)
  {
    var s := ts[k..];
    assert s[0] == ts[k] && s[1] == ts[k + 1];
    assert IsTagPair(s, 0, allowHyphen);
    assert s[2..] == ts[k + 2..];
    assert !IsTagPair(ts, k + 1, allowHyphen);
  }

  /** `Tag` at a token that starts no pair and ends none. */
  lemma TagStepSkip(ts: seq<Token>, k: nat, allowHyphen: bool)
    requires k < |ts| && !IsTagPair(ts, k, allowHyphen) && !IsTagPair(ts, k - 1, allowHyphen)
    ensures Tag(ts[k..], allowHyphen) == Piece(ts, k, allowHyphen) + Tag(ts[k + 1..], allowHyphen)
  {
    var s := ts[k..];
    assert s[0] == ts[k];
    assert !IsTagPair(s, 0, allowHyphen);
    assert s[1..] == ts[k + 1..];
  }

  lemma PiecesStepPair(ts: seq<Token>, k: nat, allowHyphen: bool)
    requires k + 2 <= |ts|
    ensures Pieces(ts, k, allowHyphen)
      == Piece(ts, k, allowHyphen) + Piece(ts, k + 1, allowHyphen) + Pieces(ts, k + 2, allowHyphen)
  {
  }

  /** The loop's result is the token-by-token reading: only the token right
      after a code token is inspected, and no other token changes. */
  lemma TagIsLocal(ts: seq<Token>, allowHyphen: bool)
    ensures Tag(ts, allowHyphen) == Pieces(ts, 0, allowHyphen)
  {
    assert ts[0..] == ts;
    TagFrom(ts, 0, allowHyphen);
  }

  /** Total length of the contents of a token list. */
  function TextSize(ts: seq<Token>): nat {
    if ts == [] then 0 else |ts[0].content| + TextSize(ts[1..])
  }

  lemma {:induction false} TextSizeConcat(a: seq<Token>, b: seq<Token>)
    ensures TextSize(a + b) == TextSize(a) + TextSize(b)
  {
    if a != [] {
      assert (a + b)[0] == a[0];
      assert (a + b)[1..] == a[1..] + b;
      TextSizeConcat(a[1..], b);
    } else {
      assert a + b == b;
    }
  }

  lemma TextSizeFrom(ts: seq<Token>, k: nat)
    requires k < |ts|
    ensures TextSize(ts[k..]) == |ts[k].content| + TextSize(ts[k + 1..])
  {
    assert ts[k..][0] == ts[k];
    assert ts[k..][1..] == ts[k + 1..];
  }

  /** A piece never has more text than its token; the text after a tag pair
      has strictly less (the tag is at least three characters). */
  lemma PieceSize(ts: seq<Token>, i: nat, allowHyphen: bool)
    requires i < |ts|
    ensures TextSize(Piece(ts, i, allowHyphen)) <= |ts[i].content|
    ensures IsTagPair(ts, i - 1, allowHyphen) ==> TextSize(Piece(ts, i, allowHyphen)) < |ts[i].content|
  {
    var p := Piece(ts, i, allowHyphen);
    if p != [] {
      assert p[1..] == [];
    }
  }

  /** One step of both sizes. */
  lemma PiecesSizeStep(ts: seq<Token>, k: nat, allowHyphen: bool)
    requires k < |ts|
    ensures TextSize(Pieces(ts, k, allowHyphen))
      == TextSize(Piece(ts, k, allowHyphen)) + TextSize(Pieces(ts, k + 1, allowHyphen))
    ensures TextSize(ts[k..]) == |ts[k].content| + TextSize(ts[k + 1..])
  {
    TextSizeConcat(Piece(ts, k, allowHyphen), Pieces(ts, k + 1, allowHyphen));
    TextSizeFrom(ts, k);
  }

  lemma {:induction false} PiecesSizeLe(ts: seq<Token>, k: nat, allowHyphen: bool)
    requires k <= |ts|
    ensures TextSize(Pieces(ts, k, allowHyphen)) <= TextSize(ts[k..])
    decreases |ts| - k
  {
    if k < |ts| {
      PiecesSizeLe(ts, k + 1, allowHyphen);
      PieceSize(ts, k, allowHyphen);
      PiecesSizeStep(ts, k, allowHyphen);
    }
  }

  lemma {:induction false} PiecesSizeLt(ts: seq<Token>, k: nat, i: nat, allowHyphen: bool)
    requires k <= i + 1 && IsTagPair(ts, i, allowHyphen)
    ensures TextSize(Pieces(ts, k, allowHyphen)) < TextSize(ts[k..])
    decreases i + 1 - k
  {
    PieceSize(ts, k, allowHyphen);
    PiecesSizeStep(ts, k, allowHyphen);
    if k == i + 1 {
      PiecesSizeLe(ts, k + 1, allowHyphen);
    } else {
      PiecesSizeLt(ts, k + 1, i, allowHyphen);
    }
  }

  lemma {:induction false} PiecesIdentity(ts: seq<Token>, k: nat, allowHyphen: bool)
    requires k <= |ts|
    requires forall i :: 0 <= i < |ts| ==> !IsTagPair(ts, i, allowHyphen)
    ensures Pieces(ts, k, allowHyphen) == ts[k..]
    decreases |ts| - k
  {
    if k < |ts| {
      PiecesIdentity(ts, k + 1, allowHyphen);
      assert !IsTagPair(ts, k - 1, allowHyphen);
      assert ts[k..] == [ts[k]] + ts[k + 1..];
    }
  }

  /** The rule leaves a child list unchanged exactly when it holds no code
      token followed by a text token that carries a tag. */
  lemma TagNoopIff(ts: seq<Token>, allowHyphen: bool)
    ensures Tag(ts, allowHyphen) == ts
        <==> forall i :: 0 <= i < |ts| ==> !IsTagPair(ts, i, allowHyphen)
  {
    TagIsLocal(ts, allowHyphen);
    assert ts[0..] == ts;
    if forall i :: 0 <= i < |ts| ==> !IsTagPair(ts, i, allowHyphen) {
      PiecesIdentity(ts, 0, allowHyphen);
    } else {
      var i :| 0 <= i < |ts| && IsTagPair(ts, i, allowHyphen);
      PiecesSizeLt(ts, 0, i, allowHyphen);
    }
  }

  // ---------------------------------------------------------------------
  // The rule as it runs: in place, over the children of inline tokens
  // ---------------------------------------------------------------------

  /** A block-level token as the core rule sees it: its type and, for
      `inline` tokens, the list of children the rule rewrites in place
      (`None` where markdown-it leaves `children` null). */
  class BlockToken {
    const kind: string
    var children: Option<seq<Token>>

    constructor (kind: string, children: Option<seq<Token>>)
      ensures this.kind == kind && this.children == children
    {
      this.kind := kind;
      this.children := children;
    }

    /** The inner `for` loop: at each code token whose next sibling is a
        text token carrying a tag, set the language, cut the tag from the
        text and `splice` the text out when nothing is left. */
    method TagChildren(allowHyphen: bool)
      requires children.Some?
      modifies this
      ensures children == Some(Tag(old(children.value), allowHyphen))
    {
      ghost var orig := children.value;
      var i := 0;
      assert children.value[i..] == orig;
      while i < |children.value|
        invariant children.Some? && i <= |children.value|
        invariant Progress(children.value, i, allowHyphen) == Tag(orig, allowHyphen)
      {
        var cs := children.value;
        if cs[i].kind == CodeInlineKind && i + 1 < |cs| && cs[i + 1].kind == TextKind
           && TagMatch(cs[i + 1].content, allowHyphen).Some?
        {
          var m := TagMatch(cs[i + 1].content, allowHyphen).value;
          var cs' := cs[i := cs[i].(lang := Some(m.lang))];
          if m.rest == "" {
            cs' := cs'[..i + 1] + cs'[i + 2..];
          } else {
            cs' := cs'[i + 1 := cs'[i + 1].(content := m.rest)];
          }
          ProgressAtPair(cs, i, allowHyphen);
          children := Some(cs');
        } else {
          ProgressSkip(cs, i, allowHyphen);
        }
        i := i + 1;
      }
      ProgressDone(children.value, allowHyphen);
    }
  }

  /** The children as the loop sees them before index `i`: the first `i`
      are final and the rest is still to be tagged. */
  function Progress(cs: seq<Token>, i: nat, allowHyphen: bool): seq<Token>
    requires i <= |cs|
  {
    cs[..i] + Tag(cs[i..], allowHyphen)
  }

  lemma ProgressSkip(cs: seq<Token>, i: nat, allowHyphen: bool)
    requires i < |cs| && !IsTagPair(cs, i, allowHyphen)
    ensures Progress(cs, i + 1, allowHyphen) == Progress(cs, i, allowHyphen)
  {
    var s := cs[i..];
    assert s[0] == cs[i] && s[1..] == cs[i + 1..];
    assert !IsTagPair(s, 0, allowHyphen);
    assert cs[..i + 1] == cs[..i] + [cs[i]];
  }

  /** One step at a tag pair, in the two shapes the loop leaves it. */
  lemma ProgressAtPair(cs: seq<Token>, i: nat, allowHyphen: bool)
    requires IsTagPair(cs, i, allowHyphen)
    ensures var m := TagMatch(cs[i + 1].content, allowHyphen).value;
      var tagged := cs[i := cs[i].(lang := Some(m.lang))];
      if m.rest == "" then
        Progress(tagged[..i + 1] + tagged[i + 2..], i + 1, allowHyphen) == Progress(cs, i, allowHyphen)
      else
        Progress(tagged[i + 1 := tagged[i + 1].(content := m.rest)], i + 1, allowHyphen)
          == Progress(cs, i, allowHyphen)
  {
    var m := TagMatch(cs[i + 1].content, allowHyphen).value;
    if m.rest == "" {
      ProgressAtPairCut(cs, i, allowHyphen);
    } else {
      ProgressAtPairKeep(cs, i, allowHyphen);
    }
  }

  /** `Tag` of the children from a tag pair on. */
  lemma TagAtPair(cs: seq<Token>, i: nat, allowHyphen: bool)
    requires IsTagPair(cs, i, allowHyphen)
    ensures var m := TagMatch(cs[i + 1].content, allowHyphen).value;
      Tag(cs[i..], allowHyphen)
        == [cs[i].(lang := Some(m.lang))]
           + (if m.rest == "" then [] else [cs[i + 1].(content := m.rest)])
           + Tag(cs[i + 2..], allowHyphen)
  {
    var s := cs[i..];
    assert s[0] == cs[i] && s[1] == cs[i + 1] && s[2..] == cs[i + 2..];
    assert IsTagPair(s, 0, allowHyphen);
  }

  /** The step that splices the emptied text token out. */
  lemma ProgressAtPairCut(cs: seq<Token>, i: nat, allowHyphen: bool)
    requires IsTagPair(cs, i, allowHyphen) && TagMatch(cs[i + 1].content, allowHyphen).value.rest == ""
    ensures var code := cs[i].(lang := Some(TagMatch(cs[i + 1].content, allowHyphen).value.lang));
      var tagged := cs[i := code];
      Progress(tagged[..i + 1] + tagged[i + 2..], i + 1, allowHyphen) == Progress(cs, i, allowHyphen)
  {
    var code := cs[i].(lang := Some(TagMatch(cs[i + 1].content, allowHyphen).value.lang));
    var tagged := cs[i := code];
    var c := tagged[..i + 1] + tagged[i + 2..];
    TagAtPair(cs, i, allowHyphen);
    CutShape(cs, i, code);
    Regroup(cs[..i], [code], Tag(cs[i + 2..], allowHyphen));
  }

  lemma Regroup(a: seq<Token>, b: seq<Token>, t: seq<Token>)
    ensures (a + b) + t == a + (b + [] + t)
  {
    assert b + [] == b;
  }

  lemma CutShape(cs: seq<Token>, i: nat, code: Token)
    requires i + 1 < |cs|
    ensures var tagged := cs[i := code];
      var c := tagged[..i + 1] + tagged[i + 2..];
      i + 1 <= |c| && c[..i + 1] == cs[..i] + [code] && c[i + 1..] == cs[i + 2..]
  {
  }

  /** The step that keeps the text token with the tag cut off. */
  lemma ProgressAtPairKeep(cs: seq<Token>, i: nat, allowHyphen: bool)
    requires IsTagPair(cs, i, allowHyphen) && TagMatch(cs[i + 1].content, allowHyphen).value.rest != ""
    ensures var m := TagMatch(cs[i + 1].content, allowHyphen).value;
      var tagged := cs[i := cs[i].(lang := Some(m.lang))];
      Progress(tagged[i + 1 := tagged[i + 1].(content := m.rest)], i + 1, allowHyphen)
        == Progress(cs, i, allowHyphen)
  {
    var m := TagMatch(cs[i + 1].content, allowHyphen).value;
    var code := cs[i].(lang := Some(m.lang));
    var next := cs[i + 1].(content := m.rest);
    var c := cs[i := code][i + 1 := next];
    TagAtPair(cs, i, allowHyphen);
    KeepShape(cs, i, code, next);
    TagAtText(c[i + 1..], allowHyphen);
    RegroupKept(cs[..i], code, next, Tag(cs[i + 2..], allowHyphen));
  }

  lemma RegroupKept(a: seq<Token>, code: Token, next: Token, t: seq<Token>)
    ensures (a + [code]) + ([next] + t) == a + ([code] + [next] + t)
  {
  }

  lemma KeepShape(cs: seq<Token>, i: nat, code: Token, next: Token)
    requires i + 1 < |cs|
    ensures var c := cs[i := code][i + 1 := next];
      c[..i + 1] == cs[..i] + [code] && c[i + 1..] != []
      && c[i + 1..][0] == next && c[i + 1..][1..] == cs[i + 2..]
  {
  }

  /** A text token starts no tag pair. */
  lemma TagAtText(s: seq<Token>, allowHyphen: bool)
    requires s != [] && s[0].kind == TextKind
    ensures Tag(s, allowHyphen) == [s[0]] + Tag(s[1..], allowHyphen)
  {
    assert !IsTagPair(s, 0, allowHyphen);
  }

  lemma ProgressDone(cs: seq<Token>, allowHyphen: bool)
    ensures Progress(cs, |cs|, allowHyphen) == cs
  {
    assert cs[..|cs|] == cs && cs[|cs|..] == [];
  }

  /** The children of a token after the rule. */
  function AfterRule(kind: string, children: Option<seq<Token>>, allowHyphen: bool): Option<seq<Token>> {
    if kind == InlineKind && children.Some? then Some(Tag(children.value, allowHyphen)) else children
  }

  /** The `inline-code-lang` core rule: every `inline` token with children
      gets its children tagged; every other token is left alone. Each token
      object occurs once in the stream, as markdown-it builds it. */
  method InlineCodeLangRule(tokens: seq<BlockToken>, allowHyphen: bool)
    requires forall i, j :: 0 <= i < j < |tokens| ==> tokens[i] != tokens[j]
    modifies set t | t in tokens
    ensures forall k :: 0 <= k < |tokens| ==>
      tokens[k].children == AfterRule(tokens[k].kind, old(tokens[k].children), allowHyphen)
  {
    var j := 0;
    while j < |tokens|
      invariant j <= |tokens|
      invariant forall k :: 0 <= k < j ==>
        tokens[k].children == AfterRule(tokens[k].kind, old(tokens[k].children), allowHyphen)
      invariant forall k :: j <= k < |tokens| ==> tokens[k].children == old(tokens[k].children)
    {
      var t := tokens[j];
      if t.kind == InlineKind && t.children.Some? {
        t.TagChildren(allowHyphen);
      }
      j := j + 1;
    }
  }

  // ---------------------------------------------------------------------
  // Examples
  // ---------------------------------------------------------------------

  /** `` `x`{js} ``: the code token takes the language and the emptied text
      token goes away. */
  lemma TagExampleBare()
    ensures Tag([Token(CodeInlineKind, "x", None), Token(TextKind, "{js}", None)], true)
         == [Token(CodeInlineKind, "x", Some("js"))]
  {
    assert TagText(false, "js", "") == "{js}";
    TagMatchComplete(false, "js", "", true);
  }

  /** `` `x`{.py} and more ``: the text keeps what follows the tag. */
  lemma TagExampleDotRest()
    ensures Tag([Token(CodeInlineKind, "x", None), Token(TextKind, "{.py} and", None)], true)
         == [Token(CodeInlineKind, "x", Some("py")), Token(TextKind, " and", None)]
  {
    DotRestMatch();
    TagOfPair(Token(CodeInlineKind, "x", None), Token(TextKind, "{.py} and", None), true);
  }

  lemma DotRestMatch()
    ensures TagMatch("{.py} and", true) == Some(TagSplit("py", " and"))
  {
    assert TagText(true, "py", " and") == "{.py} and";
    TagMatchComplete(true, "py", " and", true);
  }

  /** A list of just a code token and a text token. */
  lemma TagOfPair(code: Token, text: Token, allowHyphen: bool)
    ensures var ts := [code, text];
      Tag(ts, allowHyphen) == if IsTagPair(ts, 0, allowHyphen) then
        var m := TagMatch(text.content, allowHyphen).value;
        [code.(lang := Some(m.lang))] + (if m.rest == "" then [] else [text.(content := m.rest)])
      else ts
  {
    var ts := [code, text];
    assert ts[2..] == [];
    if !IsTagPair(ts, 0, allowHyphen) {
      assert ts[1..] == [text] && [text][1..] == [];
      assert !IsTagPair([text], 0, allowHyphen);
    }
  }

  /** A hyphenated name is a tag for the `[\w-]+` pattern of
      src/markdown.ts. */
  lemma TagExampleHyphen()
    ensures Tag([Token(CodeInlineKind, "x", None), Token(TextKind, "{objective-c}", None)], true)
         == [Token(CodeInlineKind, "x", Some("objective-c"))]
  {
    HyphenMatch();
    TagOfPair(Token(CodeInlineKind, "x", None), Token(TextKind, "{objective-c}", None), true);
  }

  lemma HyphenMatch()
    ensures TagMatch("{objective-c}", true) == Some(TagSplit("objective-c", ""))
  {
    assert TagText(false, "objective-c", "") == "{objective-c}";
    HyphenName();
    TagMatchComplete(false, "objective-c", "", true);
  }

  lemma HyphenName()
    ensures ValidName("objective-c", true)
  {
    var n := "objective-c";
    forall j | 0 <= j < |n| ensures IsTagChar(n[j], true) {
      if j == 9 {
        assert n[j] == '-';
      } else {
        assert 'a' <= n[j] <= 'z';
      }
    }
  }

  /** The `\w+` pattern of src/main.ts stops at the hyphen, so the same
      tokens stay as they are. */
  lemma TagExampleNoHyphen()
    ensures Tag([Token(CodeInlineKind, "x", None), Token(TextKind, "{objective-c}", None)], false)
         == [Token(CodeInlineKind, "x", None), Token(TextKind, "{objective-c}", None)]
  {
    var c := "{objective-c}";
    NoHyphenTagFails();
    var ts := [Token(CodeInlineKind, "x", None), Token(TextKind, c, None)];
    TagNoopIff(ts, false);
  }

  lemma NoHyphenTagFails()
    ensures TagMatch("{objective-c}", false).None?
  {
    var c := "{objective-c}";
    assert c[1..] == "objective" + "-c}";
    assert forall j :: 0 <= j < 9 ==> IsTagChar("objective"[j], false);
    NameRunOf("objective", "-c}", false);
    assert c[10] == '-';
  }
}
