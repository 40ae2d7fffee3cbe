/** `formatPyList(items, indent)` of scripts/prepare.ts and
    scripts/generate.ts (the two copies are the same code): the items,
    double-quoted and separated by `", "`, laid out greedily on lines of at
    most `80 - indent` characters, each line indented by `indent` spaces. */
module PyList {
  import opened Common

  /** `"${item}"`. */
  function Quote(item: string): string {
    "\"" + item + "\""
  }

  /** `s.slice(0, -n)`: drops the last `n` characters, or all of them. */
  function SliceDrop(s: string, n: nat): (r: string)
    ensures r == (if |s| >= n then s[..|s| - n] else "")
  {
    if |s| >= n then s[..|s| - n] else ""
  }

  /** The value of `line` after the items of `g` were appended to an empty
      line: every item quoted and followed by `", "`. */
  function Cells(g: seq<string>): (r: string)
    ensures |r| >= 4 * |g|
    ensures (r == "") == (g == [])
  {
    if g == [] then "" else Cells(g[..|g| - 1]) + Quote(g[|g| - 1]) + ", "
  }

  /** The state of the loop in group form: the items of the lines already
      pushed, and the items of the line being filled. */
  datatype Layout = Layout(done: seq<seq<string>>, open: seq<string>)

  /** The loop's decision for each item in turn: a new line is started when
      appending `"item", ` to the current one would make it longer than
      `width`. */
  function Wrap(items: seq<string>, width: int): Layout
    decreases |items|
  {
    if items == [] then Layout([], [])
    else
      var prev := Wrap(items[..|items| - 1], width);
      var item := items[|items| - 1];
      if |Cells(prev.open)| + |Quote(item)| + 2 > width
      then Layout(prev.done + [prev.open], [item])
      else Layout(prev.done, prev.open + [item])
  }

  /** A pushed line: `line.slice(0, -1)`, the trailing space removed. */
  function ClosedLine(g: seq<string>): string {
    SliceDrop(Cells(g), 1)
  }

  /** The last line: `line.slice(0, -2)`, the trailing `", "` removed. */
  function LastLine(g: seq<string>): string {
    SliceDrop(Cells(g), 2)
  }

  function ClosedLines(gs: seq<seq<string>>): (r: seq<string>)
    ensures |r| == |gs| && forall k :: 0 <= k < |gs| ==> r[k] == ClosedLine(gs[k])
  {
    if gs == [] then [] else ClosedLines(gs[..|gs| - 1]) + [ClosedLine(gs[|gs| - 1])]
  }

  /** The lines of `formatPyList` before indentation. */
  function Lines(items: seq<string>, width: int): seq<string> {
    var l := Wrap(items, width);
    ClosedLines(l.done) + (if l.open == [] then [] else [LastLine(l.open)])
  }

  /** `lines.map((l) => " ".repeat(indent) + l)`. */
  function Indented(lines: seq<string>, indent: nat): (r: seq<string>)
    ensures |r| == |lines| && forall k :: 0 <= k < |lines| ==> r[k] == Spaces(indent) + lines[k]
  {
    if lines == [] then [] else [Spaces(indent) + lines[0]] + Indented(lines[1..], indent)
  }

  /** What `formatPyList(items, indent)` returns. */
  function PyListText(items: seq<string>, indent: nat): string {
    Join(Indented(Lines(items, 80 - indent), indent), "\n")
  }

  /** `formatPyList`: the loop fills `line` and pushes full lines to
      `lines`; the last partial line is pushed after the loop. */
  method FormatPyList(items: seq<string>, indent: nat) returns (text: string)
    ensures text == PyListText(items, indent)
    ensures items == [] ==> text == ""
    ensures items != [] ==> text != ""
  {
    var lines: seq<string> := [];
    var line := "";
    ghost var layout := Layout([], []);
    for i := 0 to |items|
      invariant layout == WrapPrefix(items, i, 80 - indent)
      invariant lines == ClosedLines(layout.done) && line == Cells(layout.open)
    {
      var quoted := "\"" + items[i] + "\"";
      assert quoted == Quote(items[i]);
      if |line| + |quoted| + 2 > 80 - indent {
        ClosedLinesSnoc(layout.done, layout.open);
        CellsSingle(items[i]);
        lines := lines + [SliceDrop(line, 1)];
        line := "";
        layout := Layout(layout.done + [layout.open], [items[i]]);
      } else {
        CellsSnoc(layout.open, items[i]);
        layout := Layout(layout.done, layout.open + [items[i]]);
      }
      line := line + quoted + ", ";
    }
    WrapPrefixIsWrap(items, |items|, 80 - indent);
    assert items[..|items|] == items;
    if line != "" {
      lines := lines + [SliceDrop(line, 2)];
    }
    text := Join(Indented(lines, indent), "\n");
    if items != [] {
      PyListTextNonEmpty(items, indent);
    }
  }

  /** `Wrap` of the first `n` items, counted from the front as the loop
      goes. */
  function WrapPrefix(items: seq<string>, n: nat, width: int): Layout
    requires n <= |items|
  {
    if n == 0 then Layout([], [])
    else
      var prev := WrapPrefix(items, n - 1, width);
      var item := items[n - 1];
      if |Cells(prev.open)| + |Quote(item)| + 2 > width
      then Layout(prev.done + [prev.open], [item])
      else Layout(prev.done, prev.open + [item])
  }

  lemma {:induction false} WrapPrefixIsWrap(items: seq<string>, n: nat, width: int)
    requires n <= |items|
    ensures WrapPrefix(items, n, width) == Wrap(items[..n], width)
  {
    if n > 0 {
      WrapPrefixIsWrap(items, n - 1, width);
      assert items[..n][..n - 1] == items[..n - 1];
    }
  }

  lemma CellsSingle(x: string)
    ensures Cells([x]) == Quote(x) + ", "
  {
    assert [x][..0] == [];
  }

  lemma CellsSnoc(g: seq<string>, x: string)
    ensures Cells(g + [x]) == Cells(g) + Quote(x) + ", "
  {
    assert (g + [x])[..|g|] == g;
  }

  lemma ClosedLinesSnoc(gs: seq<seq<string>>, g: seq<string>)
    ensures ClosedLines(gs + [g]) == ClosedLines(gs) + [ClosedLine(g)]
  {
    assert (gs + [g])[..|gs|] == gs;
  }

  lemma PyListTextNonEmpty(items: seq<string>, indent: nat)
    requires items != []
    ensures PyListText(items, indent) != ""
  {
    var ind := Indented(Lines(items, 80 - indent), indent);
    WrapOpen(items, 80 - indent);
    assert ind[|ind| - 1] != "";
    JoinNonEmpty(ind, "\n");
  }

  lemma JoinNonEmpty(parts: seq<string>, sep: string)
    requires parts != [] && parts[|parts| - 1] != ""
    ensures Join(parts, sep) != ""
    decreases |parts|
  {
    if |parts| > 1 {
      JoinNonEmpty(parts[1..], sep);
    }
  }

  // ---------------------------------------------------------------------
  // The groups of items the lines hold
  // ---------------------------------------------------------------------

  /** The items of each output line, in order. */
  function Groups(items: seq<string>, width: int): seq<seq<string>> {
    var l := Wrap(items, width);
    l.done + (if l.open == [] then [] else [l.open])
  }

  function Flatten(gs: seq<seq<string>>): seq<string> {
    if gs == [] then [] else Flatten(gs[..|gs| - 1]) + gs[|gs| - 1]
  }

  lemma {:induction false} FlattenAppend(gs: seq<seq<string>>, hs: seq<seq<string>>)
    ensures Flatten(gs + hs) == Flatten(gs) + Flatten(hs)
    decreases |hs|
  {
    if hs == [] {
      assert gs + hs == gs;
    } else {
      var hs' := hs[..|hs| - 1];
      assert (gs + hs)[..|gs + hs| - 1] == gs + hs';
      assert (gs + hs)[|gs + hs| - 1] == hs[|hs| - 1];
      FlattenAppend(gs, hs');
      assert Flatten(hs) == Flatten(hs') + hs[|hs| - 1];
    }
  }

  /** The line being filled holds an item exactly when some item was seen. */
  lemma {:induction false} WrapOpen(items: seq<string>, width: int)
    ensures (Wrap(items, width).open == []) == (items == [])
  {
  }

  /** Every item is on exactly one line, in input order. */
  lemma WrapKeepsItems(items: seq<string>, width: int)
    ensures Flatten(Groups(items, width)) == items
  {
    var l := Wrap(items, width);
    WrapFlat(items, width);
    if l.open != [] {
      FlattenSnoc(l.done, l.open);
    } else {
      assert Groups(items, width) == l.done && l.open + [] == l.open;
    }
  }

  /** The pushed lines and the open line together hold the items seen. */
  lemma {:induction false} WrapFlat(items: seq<string>, width: int)
    ensures Flatten(Wrap(items, width).done) + Wrap(items, width).open == items
    decreases |items|
  {
    if items != [] {
      var p := items[..|items| - 1];
      var x := items[|items| - 1];
      var prev := Wrap(p, width);
      WrapFlat(p, width);
      assert p + [x] == items;
      if |Cells(prev.open)| + |Quote(x)| + 2 > width {
        FlattenSnoc(prev.done, prev.open);
      } else {
        Regroup(Flatten(prev.done), prev.open, [x]);
      }
    }
  }

  lemma FlattenSnoc(gs: seq<seq<string>>, g: seq<string>)
    ensures Flatten(gs + [g]) == Flatten(gs) + g
  {
    assert (gs + [g])[..|gs|] == gs;
  }

  lemma Regroup(a: seq<string>, b: seq<string>, c: seq<string>)
    ensures a + b + c == a + (b + c)
  {
  }

  /** Only the first line can be empty, and only when the first quoted item
      does not fit; every later line holds at least one item. */
  lemma {:induction false} WrapShape(items: seq<string>, width: int)
    ensures var gs := Groups(items, width);
      forall k :: 0 <= k < |gs| && gs[k] == [] ==>
        k == 0 && |Quote(items[0])| + 2 > width
    decreases |items|
  {
    if items != [] {
      var p := items[..|items| - 1];
      WrapShape(p, width);
      var prev := Wrap(p, width);
      var l := Wrap(items, width);
      WrapOpen(p, width);
      var x := items[|items| - 1];
      var gs := Groups(items, width);
      if p == [] {
        assert prev == Layout([], []);
        assert items[0] == x;
        if |Quote(x)| + 2 > width {
          assert gs == [[], [x]];
        } else {
          assert prev.open + [x] == [x];
          assert gs == [[x]];
        }
      } else {
        assert p[0] == items[0];
        if |Cells(prev.open)| + |Quote(x)| + 2 > width {
          assert gs == Groups(p, width) + [[x]];
        } else {
          var gp := Groups(p, width);
          assert gs == prev.done + [prev.open + [x]];
          assert gp == prev.done + [prev.open];
          forall k | 0 <= k < |gs| && gs[k] == []
            ensures k == 0 && |Quote(items[0])| + 2 > width
          {
            assert k < |prev.done| && gs[k] == gp[k];
          }
        }
      }
    }
  }

  /** A line ends only when the first item of the next line would not have
      fitted on it. */
  lemma {:induction false} WrapOnlyWhenNeeded(items: seq<string>, width: int, k: nat)
    requires k + 1 < |Groups(items, width)|
    ensures var gs := Groups(items, width);
      gs[k + 1] != [] && |Cells(gs[k])| + |Quote(gs[k + 1][0])| + 2 > width
    decreases |items|
  {
    var p := items[..|items| - 1];
    var x := items[|items| - 1];
    var prev := Wrap(p, width);
    var l := Wrap(items, width);
    WrapOpen(p, width);
    WrapOpen(items, width);
    if l.open == [x] && l.done == prev.done + [prev.open] && |Cells(prev.open)| + |Quote(x)| + 2 > width {
      if k + 1 < |Groups(p, width)| {
        WrapOnlyWhenNeeded(p, width, k);
      }
    } else {
      assert l.done == prev.done && l.open == prev.open + [x];
      assert prev.open != [];
      WrapOnlyWhenNeeded(p, width, k);
      assert Groups(items, width)[k + 1] == Groups(p, width)[k + 1] || k + 1 == |l.done|;
      if k + 1 == |l.done| {
        assert Groups(items, width)[k + 1] == prev.open + [x];
        assert Groups(p, width)[k + 1] == prev.open;
      }
    }
  }

  /** A line that holds two or more items fits in `width`. */
  lemma {:induction false} WrapFits(items: seq<string>, width: int, k: nat)
    requires k < |Groups(items, width)| && |Groups(items, width)[k]| >= 2
    ensures |Cells(Groups(items, width)[k])| <= width
    decreases |items|
  {
    var p := items[..|items| - 1];
    var x := items[|items| - 1];
    var prev := Wrap(p, width);
    var l := Wrap(items, width);
    WrapOpen(p, width);
    if l.open == [x] && l.done == prev.done + [prev.open] && |Cells(prev.open)| + |Quote(x)| + 2 > width {
      if k < |prev.done| {
        WrapFits(p, width, k);
      } else if k == |prev.done| {
        assert Groups(p, width)[k] == prev.open;
        WrapFits(p, width, k);
      }
    } else {
      assert l.done == prev.done && l.open == prev.open + [x];
      if k < |prev.done| {
        WrapFits(p, width, k);
      } else {
        assert Groups(items, width)[k] == prev.open + [x];
        assert (prev.open + [x])[..|prev.open|] == prev.open;
      }
    }
  }

  // ---------------------------------------------------------------------
  // What each line looks like
  // ---------------------------------------------------------------------

  /** The quoted items of a group separated by `", "`. */
  function QuotedList(g: seq<string>): string {
    if g == [] then "" else if |g| == 1 then Quote(g[0]) else QuotedList(g[..|g| - 1]) + ", " + Quote(g[|g| - 1])
  }

  lemma {:induction false} CellsQuoted(g: seq<string>)
    requires g != []
    ensures Cells(g) == QuotedList(g) + ", "
    decreases |g|
  {
    if |g| > 1 {
      CellsQuoted(g[..|g| - 1]);
    } else {
      assert g[..0] == [];
    }
  }

  /** A pushed line ends with the comma of its last item; the last line
      has no trailing comma. */
  lemma LineShapes(g: seq<string>)
    requires g != []
    ensures ClosedLine(g) == QuotedList(g) + ","
    ensures LastLine(g) == QuotedList(g)
  {
    CellsQuoted(g);
    assert (QuotedList(g) + ", ")[..|QuotedList(g)| + 1] == QuotedList(g) + ",";
    assert (QuotedList(g) + ", ")[..|QuotedList(g)|] == QuotedList(g);
  }

  /** The text of line `k` of groups `gs`: the quoted items of the group,
      with a comma at the end of every line except the last, and nothing at
      all on an empty first line. */
  function LineText(gs: seq<seq<string>>, k: nat): string
    requires k < |gs|
  {
    if gs[k] == [] then "" else QuotedList(gs[k]) + (if k + 1 < |gs| then "," else "")
  }

  lemma LinesAreGroups(items: seq<string>, width: int)
    ensures var gs := Groups(items, width); var ls := Lines(items, width);
      |ls| == |gs| && forall k :: 0 <= k < |gs| ==> ls[k] == LineText(gs, k)
  {
    var l := Wrap(items, width);
    var gs := Groups(items, width);
    var ls := Lines(items, width);
    forall k | 0 <= k < |gs|
      ensures ls[k] == LineText(gs, k)
    {
      if k < |l.done| {
        assert ls[k] == ClosedLine(l.done[k]);
        if gs[k] != [] {
          LineShapes(gs[k]);
        }
      } else {
        assert ls[k] == LastLine(l.open) && gs[k] == l.open;
        LineShapes(l.open);
      }
    }
  }

  // ---------------------------------------------------------------------
  // The output split into lines
  // ---------------------------------------------------------------------

  predicate NoNewline(s: string) {
    forall i :: 0 <= i < |s| ==> s[i] != '\n'
  }

  /** `s.split("\n")`. */
  function SplitLines(s: string): (r: seq<string>)
    ensures |r| >= 1
  {
    if s == [] then [""]
    else if s[0] == '\n' then [""] + SplitLines(s[1..])
    else var rest := SplitLines(s[1..]); [[s[0]] + rest[0]] + rest[1..]
  }

  lemma {:induction false} SplitPlain(a: string, b: string)
    requires NoNewline(a)
    ensures SplitLines(a + "\n" + b) == [a] + SplitLines(b)
    ensures SplitLines(a) == [a]
    decreases |a|
  {
    if a != [] {
      assert (a + "\n" + b)[1..] == a[1..] + "\n" + b;
      SplitPlain(a[1..], b);
      assert [a[0]] + a[1..] == a;
    } else {
      assert a + "\n" + b == "\n" + b;
      assert ("\n" + b)[1..] == b;
    }
  }

  /** Splitting lines joined with newlines gives the lines back. */
  lemma {:induction false} SplitJoin(ls: seq<string>)
    requires ls != [] && forall k :: 0 <= k < |ls| ==> NoNewline(ls[k])
    ensures SplitLines(Join(ls, "\n")) == ls
    decreases |ls|
  {
    if |ls| == 1 {
      SplitPlain(ls[0], "");
    } else {
      SplitJoin(ls[1..]);
      SplitPlain(ls[0], Join(ls[1..], "\n"));
    }
  }

  lemma {:induction false} QuotedNoNewline(g: seq<string>)
    requires forall i :: 0 <= i < |g| ==> NoNewline(g[i])
    ensures NoNewline(QuotedList(g))
    decreases |g|
  {
    if |g| > 1 {
      QuotedNoNewline(g[..|g| - 1]);
    }
  }

  lemma LinesNoNewline(items: seq<string>, width: int)
    requires forall i :: 0 <= i < |items| ==> NoNewline(items[i])
    ensures forall k :: 0 <= k < |Lines(items, width)| ==> NoNewline(Lines(items, width)[k])
  {
    var gs := Groups(items, width);
    WrapKeepsItems(items, width);
    LinesAreGroups(items, width);
    forall k | 0 <= k < |gs|
      ensures NoNewline(LineText(gs, k))
    {
      GroupNoNewline(gs, k);
    }
  }

  lemma GroupNoNewline(gs: seq<seq<string>>, k: nat)
    requires k < |gs| && forall i :: 0 <= i < |Flatten(gs)| ==> NoNewline(Flatten(gs)[i])
    ensures NoNewline(LineText(gs, k))
  {
    forall i | 0 <= i < |gs[k]|
      ensures NoNewline(gs[k][i])
    {
      FlattenHas(gs, k, i);
    }
    QuotedNoNewline(gs[k]);
  }

  /** An item of a group is an item of the flattened list. */
  lemma {:induction false} FlattenHas(gs: seq<seq<string>>, k: nat, i: nat)
    requires k < |gs| && i < |gs[k]|
    ensures gs[k][i] in Flatten(gs)
    decreases |gs|
  {
    if k + 1 < |gs| {
      FlattenHas(gs[..|gs| - 1], k, i);
    } else {
      assert Flatten(gs) == Flatten(gs[..|gs| - 1]) + gs[k];
      assert gs[k][i] == Flatten(gs)[|Flatten(gs[..|gs| - 1])| + i];
    }
  }

  /** The lines of the output: as many as there are groups, each indented
      by `indent` spaces and holding the quoted items of its group, with
      a trailing comma on every line but the last. */
  lemma OutputLines(items: seq<string>, indent: nat)
    requires items != [] && forall i :: 0 <= i < |items| ==> NoNewline(items[i])
    ensures var out := SplitLines(PyListText(items, indent)); var gs := Groups(items, 80 - indent);
      |out| == |gs| && forall k :: 0 <= k < |gs| ==> out[k] == Spaces(indent) + LineText(gs, k)
  {
    OutputIsIndented(items, indent);
    LinesAreGroups(items, 80 - indent);
    IndentedLineTexts(Lines(items, 80 - indent), Groups(items, 80 - indent), indent);
  }

  lemma IndentedLineTexts(ls: seq<string>, gs: seq<seq<string>>, indent: nat)
    requires |ls| == |gs| && forall k :: 0 <= k < |gs| ==> ls[k] == LineText(gs, k)
    ensures var ind := Indented(ls, indent);
      |ind| == |gs| && forall k :: 0 <= k < |gs| ==> ind[k] == Spaces(indent) + LineText(gs, k)
  {
  }

  lemma OutputIsIndented(items: seq<string>, indent: nat)
    requires items != [] && forall i :: 0 <= i < |items| ==> NoNewline(items[i])
    ensures SplitLines(PyListText(items, indent)) == Indented(Lines(items, 80 - indent), indent)
  {
    var width := 80 - indent;
    var ls := Lines(items, width);
    LinesNoNewline(items, width);
    LinesNonEmpty(items, width);
    IndentedNoNewline(ls, indent);
    var out := Indented(ls, indent);
    SplitJoin(out);
    assert PyListText(items, indent) == Join(out, "\n");
  }

  lemma LinesNonEmpty(items: seq<string>, width: int)
    requires items != []
    ensures Lines(items, width) != []
  {
    WrapOpen(items, width);
  }

  lemma IndentedNoNewline(ls: seq<string>, indent: nat)
    requires forall k :: 0 <= k < |ls| ==> NoNewline(ls[k])
    ensures forall k :: 0 <= k < |ls| ==> NoNewline(Indented(ls, indent)[k])
  {
    forall k | 0 <= k < |ls|
      ensures NoNewline(Indented(ls, indent)[k])
    {
      assert Indented(ls, indent)[k] == Spaces(indent) + ls[k];
    }
  }

  /** When every quoted item with its `", "` fits in `80 - indent`, no line
      is empty and no output line is longer than 80 characters. */
  lemma ShortItemsFit(items: seq<string>, indent: nat)
    requires items != [] && forall i :: 0 <= i < |items| ==> NoNewline(items[i])
    requires forall i :: 0 <= i < |items| ==> |Quote(items[i])| + 2 <= 80 - indent
    ensures var out := SplitLines(PyListText(items, indent));
      forall k :: 0 <= k < |out| ==> |out[k]| <= 80 && |out[k]| > indent
  {
    var width := 80 - indent;
    var gs := Groups(items, width);
    OutputLines(items, indent);
    WrapShape(items, width);
    WrapKeepsItems(items, width);
    forall k | 0 <= k < |gs|
      ensures 0 < |LineText(gs, k)| <= width
    {
      GroupFits(items, width, k);
    }
  }

  /** Under the same condition every group is non-empty and its items with
      their separators fit in `width`. */
  lemma GroupFits(items: seq<string>, width: int, k: nat)
    requires forall i :: 0 <= i < |items| ==> |Quote(items[i])| + 2 <= width
    requires Flatten(Groups(items, width)) == items
    requires k < |Groups(items, width)|
    requires forall j :: 0 <= j < |Groups(items, width)| && Groups(items, width)[j] == [] ==>
        j == 0 && |Quote(items[0])| + 2 > width
    ensures var gs := Groups(items, width);
      gs[k] != [] && 0 < |LineText(gs, k)| <= width
  {
    var gs := Groups(items, width);
    var g := gs[k];
    assert g != [];
    CellsQuoted(g);
    if |g| >= 2 {
      WrapFits(items, width, k);
    } else {
      FlattenHas(gs, k, 0);
      assert Cells(g) == Cells([]) + Quote(g[0]) + ", ";
    }
  }

  /** A first item too long for its line leaves an empty indented line
      at the top. */
  lemma LongFirstItem(items: seq<string>, indent: nat)
    requires items != [] && forall i :: 0 <= i < |items| ==> NoNewline(items[i])
    requires |Quote(items[0])| + 2 > 80 - indent
    ensures SplitLines(PyListText(items, indent))[0] == Spaces(indent)
  {
    var width := 80 - indent;
    OutputLines(items, indent);
    FirstGroupEmpty(items, width);
  }

  lemma {:induction false} FirstGroupEmpty(items: seq<string>, width: int)
    requires items != [] && |Quote(items[0])| + 2 > width
    ensures |Groups(items, width)| >= 2 && Groups(items, width)[0] == []
    decreases |items|
  {
    var p := items[..|items| - 1];
    var x := items[|items| - 1];
    var prev := Wrap(p, width);
    if p == [] {
      assert x == items[0];
      assert prev == Layout([], []);
      assert Wrap(items, width) == Layout([[]], [x]);
    } else {
      assert p[0] == items[0];
      FirstGroupEmpty(p, width);
      WrapOpen(p, width);
      assert |prev.done| >= 1 && prev.done[0] == [];
      WrapOpen(items, width);
    }
  }
}
