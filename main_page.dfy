/** `render(front, back)` of src/main.ts: each field, rendered by
    markdown-it, replaces the content of its own target element, and a
    target that is not on the page is skipped. */
module MainPage {
  import opened Common

  /** A target element: `.front` or `.back`. */
  class Target {
    var innerHtml: string

    constructor(html: string)
      ensures innerHtml == html
    {
      innerHtml := html;
    }
  }

  function Targets(front: Option<Target>, back: Option<Target>): set<Target> {
    (if front.Some? then {front.value} else {}) + (if back.Some? then {back.value} else {})
  }

  /** When one element carries both classes, the back field is written last
      and wins. */
  method Render(frontEl: Option<Target>, backEl: Option<Target>, front: string, back: string,
                mdRender: string -> string)
    modifies Targets(frontEl, backEl)
    ensures backEl.Some? ==> backEl.value.innerHtml == mdRender(back)
    ensures frontEl.Some? && (backEl.None? || backEl.value != frontEl.value) ==>
      frontEl.value.innerHtml == mdRender(front)
  {
    if frontEl.Some? {
      frontEl.value.innerHtml := mdRender(front);
    }
    if backEl.Some? {
      backEl.value.innerHtml := mdRender(back);
    }
  }
}
