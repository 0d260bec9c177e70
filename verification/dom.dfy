/** The document and network layer, abstracted. Selections of the parsed HTML
    arrive as plain sequences of records, and the portal's HTTP endpoint and
    the umlaut repair function are parameters. */
module Dom {

  /** The outcome of looking something up in the document: an attribute
      that may be missing, or a document that may fail to parse. */
  datatype Lookup<T> = Absent | Present(value: T)

  /** The value found, or `fallback` when there is none (Go's zero value
      for a missing attribute). */
  function ValueOr<T>(l: Lookup<T>, fallback: T): T {
    if l.Present? then l.value else fallback
  }

  /** The only HTTP status the parser treats as success. */
  const StatusOk: int := 200

  /** A `<p>` element. `empty` is the `:empty` pseudo-class (the element has
      no child element and no text node), which is independent of `text`: a
      paragraph holding only an empty `<span>` is not empty but has no text. */
  datatype Paragraph = Paragraph(empty: bool, text: string)

  /** One child node of a `<fieldset>`: a `<br>` element or any other node
      (text nodes included) together with its text. */
  datatype FieldsetNode = FieldsetNode(isBreak: bool, text: string)

  /** A page answered by the portal: its HTTP status, the `<p>` elements under
      `#content`, and the child nodes of the `<fieldset>` elements inside
      `<table>`, all in document order. */
  datatype Page = Page(status: int, paragraphs: seq<Paragraph>, fieldset: seq<FieldsetNode>)

  /** The collaborators the parser calls: `fetch(ref)` is the answer to a GET
      of the portal endpoint followed by `ref`; `replaceUmlauts` is the
      character repair applied to extracted texts. */
  datatype Portal = Portal(fetch: string -> Page, replaceUmlauts: string -> string)
}
