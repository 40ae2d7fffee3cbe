/** The fence rule shared by src/markdown.ts and src/main.ts: the info
    string is split with `info.split(/\s+/)`, the first word names the
    language (`"text"` when it is empty), the other words joined by one space
    are the meta string, and the code loses its trailing white space. */
module Fence {
  import opened Common

  predicate NoJsSpace(w: string) {
    forall j :: 0 <= j < |w| ==> !IsJsSpace(w[j])
  }

  /** `s.split(/\s+/)`: the pieces between maximal white-space runs. A
      leading run gives an empty first piece, a trailing run an empty last
      piece, and the empty string splits into one empty piece. */
  function SplitWs(s: string): (r: seq<string>)
    ensures |r| >= 1
    decreases |s|
  {
    var k := FirstJsSpace(s);
    if k == |s| then [s]
    else
      var m := k + JsSpaceRun(s[k..]);
      assert m > k;
      [s[..k]] + SplitWs(s[m..])
  }

  /** The first piece is the text before the first white-space run. */
  lemma {:induction false} SplitWsHead(s: string, k: nat)
    requires k == FirstJsSpace(s)
    ensures SplitWs(s)[0] == s[..k]
  {
  }

  /** The pieces after the first are those of the text after the first
      white-space run, which ends at `m`. */
  lemma {:induction false} SplitWsTail(s: string, k: nat, m: nat)
    requires k == FirstJsSpace(s) < |s| && m == k + JsSpaceRun(s[k..])
    ensures SplitWs(s)[1..] == SplitWs(s[m..])
  {
  }

  /** Splitting loses only the width of each white-space run: joining the
      pieces with single spaces gives the string with its runs collapsed. */
  lemma {:induction false} SplitWsJoin(s: string)
    ensures Join(SplitWs(s), " ") == CollapseWs(s)
    decreases |s|
  {
    var k := FirstJsSpace(s);
    if k == |s| {
      assert SplitWs(s) == [s];
      CollapseWord(s, []);
      assert s + [] == s;
    } else {
      var m := k + JsSpaceRun(s[k..]);
      SplitWsJoin(s[m..]);
      SplitWsHead(s, k);
      SplitWsTail(s, k, m);
      JoinCons(SplitWs(s), " ");
      CollapseWsStep(s, k, m);
    }
  }

  /** The pieces hold no white space, only the first and the last may be
      empty, and the first is empty only for an empty string or a leading
      run. */
  lemma {:induction false} SplitWsPieces(s: string)
    ensures var r := SplitWs(s);
      && (forall i :: 0 <= i < |r| ==> NoJsSpace(r[i]))
      && (forall i :: 0 < i < |r| - 1 ==> r[i] != "")
      && (s == [] || !IsJsSpace(s[0]) ==> (r[0] == [] <==> s == []))
    decreases |s|
  {
    var k := FirstJsSpace(s);
    NoJsSpaceBeforeFirst(s, k);
    SplitWsHead(s, k);
    if k < |s| {
      var m := k + JsSpaceRun(s[k..]);
      SplitWsPieces(s[m..]);
      SplitWsTail(s, k, m);
      var r, rest := SplitWs(s), SplitWs(s[m..]);
      assert forall i :: 1 <= i < |r| ==> r[i] == rest[i - 1];
    } else {
      assert |SplitWs(s)| == 1;
    }
  }

  /** The string with every maximal white-space run replaced by one
      space. */
  function CollapseWs(s: string): (r: string)
    ensures |r| <= |s|
    decreases |s|
  {
    if s == [] then []
    else if IsJsSpace(s[0]) then " " + CollapseWs(s[JsSpaceRun(s)..])
    else [s[0]] + CollapseWs(s[1..])
  }

  lemma {:induction false} CollapseWord(w: string, rest: string)
    requires NoJsSpace(w)
    ensures CollapseWs(w + rest) == w + CollapseWs(rest)
    decreases |w|
  {
    if w != [] {
      var t := w + rest;
      assert t[0] == w[0] && t[1..] == w[1..] + rest;
      CollapseWord(w[1..], rest);
      assert [w[0]] + w[1..] == w;
    } else {
      assert w + rest == rest;
    }
  }

  /** The first word, one space, then the rest after the first run. */
  lemma {:induction false} CollapseWsStep(s: string, k: nat, m: nat)
    requires k == FirstJsSpace(s) < |s| && m == k + JsSpaceRun(s[k..])
    ensures CollapseWs(s) == s[..k] + " " + CollapseWs(s[m..])
  {
    NoJsSpaceBeforeFirst(s, k);
    CollapseAfterWord(s, k, m);
  }

  lemma {:induction false} CollapseAfterWord(s: string, k: nat, m: nat)
    requires k < |s| && NoJsSpace(s[..k]) && IsJsSpace(s[k]) && m == k + JsSpaceRun(s[k..])
    ensures CollapseWs(s) == s[..k] + " " + CollapseWs(s[m..])
  {
    CollapseSplitAt(s, k);
    CollapseAtRun(s[k..]);
    DropDrop(s, k, m - k);
    AppendAssoc(s[..k], " ", CollapseWs(s[m..]));
  }

  /** A word without white space passes through unchanged. */
  lemma {:induction false} CollapseSplitAt(s: string, k: nat)
    requires k <= |s| && NoJsSpace(s[..k])
    ensures CollapseWs(s) == s[..k] + CollapseWs(s[k..])
  {
    TakeDrop(s, k);
    CollapseWord(s[..k], s[k..]);
  }

  lemma {:induction false} NoJsSpaceBeforeFirst(s: string, k: nat)
    requires k == FirstJsSpace(s)
    ensures NoJsSpace(s[..k])
  {
    assert forall j :: 0 <= j < k ==> s[..k][j] == s[j];
  }

  /** A white-space run becomes one space. */
  lemma {:induction false} CollapseAtRun(t: string)
    requires t != [] && IsJsSpace(t[0])
    ensures CollapseWs(t) == " " + CollapseWs(t[JsSpaceRun(t)..])
  {
  }

  lemma JoinCons(ws: seq<string>, sep: string)
    requires |ws| >= 2
    ensures Join(ws, sep) == ws[0] + sep + Join(ws[1..], sep)
  {
  }

  lemma {:induction false} JoinStart(ws: seq<string>, sep: string)
    requires |ws| >= 1 && ws[0] != []
    ensures Join(ws, sep) != [] && Join(ws, sep)[0] == ws[0][0]
  {
    if |ws| >= 2 {
      JoinCons(ws, sep);
    }
  }

  lemma FirstJsSpaceOf(w: string, rest: string)
    requires NoJsSpace(w) && (rest == [] || IsJsSpace(rest[0]))
    ensures FirstJsSpace(w + rest) == |w|
  {
    var t := w + rest;
    assert forall j :: 0 <= j < |w| ==> t[j] == w[j];
    assert rest != [] ==> t[|w|] == rest[0];
  }

  /** Splitting undoes joining with single spaces, for every list of words
      that splitting can produce. */
  lemma {:induction false} SplitJoin(ws: seq<string>)
    requires |ws| >= 1
    requires forall i :: 0 <= i < |ws| ==> NoJsSpace(ws[i])
    requires forall i :: 0 < i < |ws| - 1 ==> ws[i] != ""
    ensures SplitWs(Join(ws, " ")) == ws
    decreases |ws|
  {
    var s := Join(ws, " ");
    if |ws| == 1 {
      FirstJsSpaceOf(ws[0], "");
      assert ws[0] + "" == ws[0];
    } else {
      var tail := Join(ws[1..], " ");
      JoinCons(ws, " ");
      assert s == ws[0] + (" " + tail);
      FirstJsSpaceOf(ws[0], " " + tail);
      var k := |ws[0]|;
      assert s[..k] == ws[0];
      assert s[k..] == " " + tail;
      if ws[1] != [] {
        JoinStart(ws[1..], " ");
        assert (" " + tail)[1..] == tail;
        assert JsSpaceRun(" " + tail) == 1;
      } else {
        assert |ws| == 2 && tail == "";
        assert JsSpaceRun(" " + tail) == 1;
      }
      assert s[k + 1..] == tail;
      SplitJoin(ws[1..]);
      SplitWsHead(s, k);
      SplitWsTail(s, k, k + 1);
      HeadTail(SplitWs(s), ws);
    }
  }

  /** What the fence rule hands to `highlight`. */
  datatype FenceCall = FenceCall(code: string, lang: string, meta: string)

  /** `rest.join(" ")`: the words after the first white-space run of the
      info string, each further run collapsed to one space. */
  function InfoMeta(info: string): (r: string)
    ensures var k := FirstJsSpace(info);
      r == if k == |info| then "" else CollapseWs(info[k + JsSpaceRun(info[k..])..])
  {
    SplitWsRestJoin(info);
    Join(SplitWs(info)[1..], " ")
  }

  lemma {:induction false} SplitWsRestJoin(info: string)
    ensures var k := FirstJsSpace(info);
      Join(SplitWs(info)[1..], " ") == if k == |info| then "" else CollapseWs(info[k + JsSpaceRun(info[k..])..])
  {
    var k := FirstJsSpace(info);
    if k == |info| {
      SplitWsWhole(info);
    } else {
      SplitWsRest(info, k, k + JsSpaceRun(info[k..]));
    }
  }


  /** A string without white space is a single piece. */
  lemma {:induction false} SplitWsWhole(s: string)
    requires FirstJsSpace(s) == |s|
    ensures Join(SplitWs(s)[1..], " ") == ""
  {
    assert SplitWs(s) == [s];
  }

  /** The pieces after the first, joined, are the rest collapsed. */
  lemma {:induction false} SplitWsRest(s: string, k: nat, m: nat)
    requires k == FirstJsSpace(s) < |s| && m == k + JsSpaceRun(s[k..])
    ensures Join(SplitWs(s)[1..], " ") == CollapseWs(s[m..])
  {
    SplitWsTail(s, k, m);
    SplitWsJoin(s[m..]);
  }

  /** The fence rule's arguments for `highlight(content.trimEnd(), lang ||
      "text", rest.join(" "))`. */
  function FenceArgs(info: string, content: string): (r: FenceCall)
    ensures var k := FirstJsSpace(info);
      r.lang == if k == 0 then "text" else info[..k]
    ensures r.code <= content && !(r.code != [] && IsJsSpace(r.code[|r.code| - 1]))
    ensures forall i :: |r.code| <= i < |content| ==> IsJsSpace(content[i])
    ensures r.meta == InfoMeta(info)
  {
    var pieces := SplitWs(info);
    SplitWsHead(info, FirstJsSpace(info));
    FenceCall(TrimEnd(JavaScript, content),
              if pieces[0] == "" then "text" else pieces[0],
              InfoMeta(info))
  }

  /** An info string of words separated by white space gives its first word
      as the language and the others, joined by single spaces, as meta. */
  lemma FenceOfWords(lang: string, words: seq<string>, content: string)
    requires lang != [] && NoJsSpace(lang)
    requires forall i :: 0 <= i < |words| ==> words[i] != [] && NoJsSpace(words[i])
    ensures FenceArgs(Join([lang] + words, " "), content).lang == lang
    ensures FenceArgs(Join([lang] + words, " "), content).meta == Join(words, " ")
  {
    var ws := [lang] + words;
    SplitJoin(ws);
    assert ws[1..] == words;
  }

  /** A language word alone is the language and leaves meta empty. */
  lemma FenceLanguageOnly(lang: string, content: string)
    requires lang != [] && NoJsSpace(lang)
    ensures FenceArgs(lang, content) == FenceCall(TrimEnd(JavaScript, content), lang, "")
  {
    FenceOfWords(lang, [], content);
    assert [lang] + [] == [lang];
  }

  /** White space before the first word leaves the language empty, so the
      block falls back to `"text"` and all the words, the first included,
      become meta. */
  lemma FenceLeadingSpace(info: string, content: string)
    requires info != [] && IsJsSpace(info[0])
    ensures FenceArgs(info, content).lang == "text"
    ensures FenceArgs(info, content).meta == CollapseWs(info[JsSpaceRun(info)..])
  {
    assert info[0..] == info;
  }
}
