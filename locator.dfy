/**
 * The container locator (`{method, id, class}`) and its lookup on a later
 * visit (the `getArticleContainer(container)` declared last in the script,
 * which is the one every call reaches). The document's id and class indexes
 * are inputs: `getElementById` and `getElementsByClassName`.
 */
module Locator {
  import opened Wrappers

  /** A live element, by its position in document order. */
  type Element = nat

  /** The serialisable locator: which lookups to try (`method`), and their keys (`id`, `class`). */
  datatype ContainerLocator = ContainerLocator(methods: seq<string>, id: string, className: string)

  /** The document as the lookup sees it. */
  datatype Document = Document(ids: map<string, Element>, classes: map<string, seq<Element>>)

  /** `document.getElementById(id)`: the element, or `null`; the empty id names no element. */
  function ElementById(doc: Document, id: string): (r: Option<Element>)
    ensures id == "" ==> r.None?
  {
    if id != "" && id in doc.ids then Some(doc.ids[id]) else None
  }

  /** `document.getElementsByClassName(class)`: the matching elements, possibly none; the empty class matches none. */
  function ElementsByClassName(doc: Document, className: string): (r: seq<Element>)
    ensures className == "" ==> r == []
  {
    if className != "" && className in doc.classes then doc.classes[className] else []
  }

  /**
   * Where the locator leads: a unique class match if the locator asks for
   * one, otherwise the id match if it asks for one, otherwise nowhere.
   */
  function Resolve(loc: ContainerLocator, doc: Document): (r: Option<Element>)
    ensures r.None? <==>
      && !("id" in loc.methods && ElementById(doc, loc.id).Some?)
      && !("class" in loc.methods && |ElementsByClassName(doc, loc.className)| == 1)
    ensures "class" in loc.methods && |ElementsByClassName(doc, loc.className)| == 1 ==>
              r == Some(ElementsByClassName(doc, loc.className)[0])
    ensures r.Some? && !("class" in loc.methods && |ElementsByClassName(doc, loc.className)| == 1) ==>
              "id" in loc.methods && r == ElementById(doc, loc.id)
  {
    var byClass := ElementsByClassName(doc, loc.className);
    if "class" in loc.methods && |byClass| == 1 then Some(byClass[0])
    else if "id" in loc.methods then ElementById(doc, loc.id)
    else None
  }

  /** A locator that names no method never finds anything. */
  lemma EmptyMethodFindsNothing(id: string, className: string, doc: Document)
    ensures Resolve(ContainerLocator([], id, className), doc) == None
  {
  }

  /** The locator object of the message, which the lookup completes with the element found. */
  class Container {
    const locator: ContainerLocator
    var element: Option<Element>

    constructor (locator: ContainerLocator)
      ensures this.locator == locator && element == None
    {
      this.locator := locator;
      element := None;
    }
  }

  /**
   * The lookup as the script runs it: the id lookup first, then a unique class
   * match overwrites it. On success the same object comes back with `element`
   * set; otherwise `null`, and the object is untouched.
   */
  method GetArticleContainer(container: Container, doc: Document) returns (r: Container?)
    modifies container
    ensures r == null <==> Resolve(container.locator, doc).None?
    ensures r != null ==> r == container && container.element == Resolve(container.locator, doc)
    ensures r == null ==> container.element == old(container.element)
  {
    var element: Option<Element> := None;
    if "id" in container.locator.methods {
      element := ElementById(doc, container.locator.id);
    }
    if "class" in container.locator.methods {
      var elements := ElementsByClassName(doc, container.locator.className);
      if |elements| == 1 {
        element := Some(elements[0]);
      }
    }
    if element.Some? {
      container.element := element;
      r := container;
    } else {
      r := null;
    }
  }
}
