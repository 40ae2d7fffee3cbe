/** The two Shiki transformers of src/markdown.ts and src/main.ts, which
    rewrite the `<pre>` element Shiki produces. `codeBlock` turns it into a
    `<figure class="code-block">` holding the original `<pre>` and a
    toolbar; `codeInline` turns it into a single `<code class="code-inline">`.
    Elements are hast nodes; the node a transformer receives is mutated in
    place, so it is an object here. */
module Hast {
  import opened Common

  /** A property value: one string or a list of strings. */
  datatype PropValue = Str(s: string) | Strs(items: seq<string>)

  datatype Node =
    | Element(tagName: string, properties: map<string, PropValue>, children: seq<Node>)
    | Text(value: string)

  function ClassOf(properties: map<string, PropValue>): Option<PropValue> {
    if "class" in properties then Some(properties["class"]) else None
  }

  predicate NonEmpty(s: string) {
    s != ""
  }

  /** `[node.properties.class].flat().filter(Boolean)`: a list is taken as
      it is, a single string becomes a one-element list, and empty strings
      and a missing class are dropped. */
  function ClassList(v: Option<PropValue>): (r: seq<string>)
    ensures forall i :: 0 <= i < |r| ==> r[i] != ""
  {
    match v
    case None => []
    case Some(Str(s)) => if s == "" then [] else [s]
    case Some(Strs(items)) => Filter(items, NonEmpty)
  }

  /** The class list keeps every non-empty class in its order and nothing
      else. */
  lemma ClassListOfList(items: seq<string>)
    ensures IsSubsequence(ClassList(Some(Strs(items))), items)
    ensures forall c :: c in ClassList(Some(Strs(items))) <==> c in items && c != ""
  {
    FilterIsSubsequence(items, NonEmpty);
  }

  function Button(cls: string, caption: string): Node {
    Element("button", map["type" := Str("button"), "class" := Str(cls)], [Text(caption)])
  }

  /** The `<figcaption class="toolbar">` of a block in language `lang`. */
  function Toolbar(lang: string): (r: Node)
    ensures r.Element? && r.tagName == "figcaption" && |r.children| == 2
  {
    Element("figcaption", map["class" := Str("toolbar")], [
      Element("span", map["class" := Str("lang")], [Text(lang)]),
      Element("span", map["class" := Str("actions")], [
        Button("toggle", "Reveal"),
        Button("copy", "Copy")])])
  }

  /** The text of every text node in document order. */
  function TextOf(n: Node): string
    decreases n, 1
  {
    match n
    case Text(v) => v
    case Element(_, _, cs) => TextOfAll(cs)
  }

  function TextOfAll(cs: seq<Node>): string
    decreases cs, 0
  {
    if cs == [] then "" else TextOf(cs[0]) + TextOfAll(cs[1..])
  }

  lemma TextOfOne(a: Node)
    ensures TextOfAll([a]) == TextOf(a)
  {
    assert [a][1..] == [];
  }

  lemma TextOfTwo(a: Node, b: Node)
    ensures TextOfAll([a, b]) == TextOf(a) + TextOf(b)
  {
    assert [a, b][1..] == [b];
    TextOfOne(b);
  }

  /** The toolbar shows the language, then the toggle button labelled
      "Reveal", then the copy button labelled "Copy": the state the click
      handler starts from. */
  lemma ToolbarText(lang: string)
    ensures TextOf(Toolbar(lang)) == lang + "Reveal" + "Copy"
    ensures Toolbar(lang).children[1].children[0] == Button("toggle", "Reveal")
    ensures Toolbar(lang).children[1].children[1] == Button("copy", "Copy")
  {
    var t := Toolbar(lang);
    TextOfOne(Text(lang));
    TextOfOne(Text("Reveal"));
    TextOfOne(Text("Copy"));
    TextOfTwo(Button("toggle", "Reveal"), Button("copy", "Copy"));
    TextOfTwo(t.children[0], t.children[1]);
  }

  /** The properties of the figure: the `code-block` class before Shiki's
      classes, and Shiki's style when the `<pre>` had one. */
  function FigureProperties(preProps: map<string, PropValue>): map<string, PropValue> {
    var cls := map["class" := Strs(["code-block"] + ClassList(ClassOf(preProps)))];
    if "style" in preProps then cls["style" := preProps["style"]] else cls
  }

  /** A hast element a transformer works on. */
  class ElementNode {
    var tagName: string
    var properties: map<string, PropValue>
    var children: seq<Node>

    constructor(tagName: string, properties: map<string, PropValue>, children: seq<Node>)
      ensures this.tagName == tagName && this.properties == properties && this.children == children
    {
      this.tagName := tagName;
      this.properties := properties;
      this.children := children;
    }

    function Value(): Node
      reads this
    {
      Element(tagName, properties, children)
    }

    /** `codeBlock.pre`: the node becomes the figure; the `<pre>` it was
        moves inside, stripped of its properties, followed by the toolbar. */
    method CodeBlockPre(lang: string)
      modifies this
      ensures tagName == "figure"
      ensures properties == FigureProperties(old(properties))
      ensures children == [Element(old(tagName), map[], old(children)), Toolbar(lang)]
    {
      var classes := ClassList(ClassOf(properties));
      var style := if "style" in properties then Some(properties["style"]) else None;
      properties := map[];
      var pre := Element(tagName, properties, children);
      var figureProps := map["class" := Strs(["code-block"] + classes)];
      if style.Some? {
        figureProps := figureProps["style" := style.value];
      }
      tagName := "figure";
      properties := figureProps;
      children := [pre, Toolbar(lang)];
    }

    /** `codeInline.pre`: the node becomes `<code class="code-inline ...">`
        with its other properties kept, and an inner `<code>` element in
        first position is replaced by its children. */
    method CodeInlinePre()
      modifies this
      ensures tagName == "code"
      ensures properties == old(properties)["class" := Strs(["code-inline"] + ClassList(ClassOf(old(properties))))]
      ensures children == InlineChildren(old(children))
    {
      var classes := ClassList(ClassOf(properties));
      tagName := "code";
      properties := properties["class" := Strs(["code-inline"] + classes)];
      if |children| > 0 && children[0].Element? && children[0].tagName == "code" {
        children := children[0].children;
      }
    }
  }

  /** The children after flattening: those of a leading `<code>` element
      (any siblings after it are dropped), or the children as they were. */
  function InlineChildren(cs: seq<Node>): (r: seq<Node>)
    ensures cs != [] && cs[0].Element? && cs[0].tagName == "code" ==> r == cs[0].children
    ensures !(cs != [] && cs[0].Element? && cs[0].tagName == "code") ==> r == cs
  {
    if |cs| > 0 && cs[0].Element? && cs[0].tagName == "code" then cs[0].children else cs
  }

  /** Flattening keeps the text of Shiki's usual `<pre><code>…</code></pre>`
      shape, so the inline element shows exactly the highlighted code. */
  lemma InlineKeepsText(inner: seq<Node>)
    ensures TextOfAll(InlineChildren([Element("code", map[], inner)])) == TextOfAll([Element("code", map[], inner)])
  {
    var cs := [Element("code", map[], inner)];
    assert cs[1..] == [];
    assert TextOfAll(cs) == TextOf(cs[0]) + "";
  }
}
