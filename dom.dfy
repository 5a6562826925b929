/** What the engine reads from a fetched HTML page once it is parsed. The
    HTML parser, its selectors and `.text()`, the regular expressions that
    locate the embedded payloads and `JSON.parse` are not modelled: their
    results are given here as data. */
module Dom {
  import opened Wrappers

  /** One `<a>` element in document order: its `href` attribute (`None` when
      absent), its own text, and the text of the title-bearing elements under
      its closest `tr`, `li` or `div` ancestor. */
  datatype Anchor = Anchor(href: Option<string>, text: string, containerTitleText: string)

  /** The item object an extraction pattern reaches after `JSON.parse` and
      the property path. A string field that is missing or falsy is the empty
      string; `price` is what `parseInt(item.price)` gives, `None` for NaN. */
  datatype Payload = Payload(productName: string, title: string, price: Option<int>, endTime: string, endtime: string)

  /** One inline `<script>` (one without a `src` attribute): its text, and
      the item reached through the `var pageData = {...};` assignment and
      through the `__NEXT_DATA__ = {...}` assignment in that text, `None`
      where the match, the parse or the property path fails. */
  datatype Script = Script(content: string, pageData: Option<Payload>, nextData: Option<Payload>)

  /** A parsed page: the text of `body`, the anchors, the inline scripts in
      document order, and the item reached through the element with id
      `__NEXT_DATA__`, `None` when that element is absent, empty, not JSON or
      lacks the property path. */
  datatype Document = Document(bodyText: string, anchors: seq<Anchor>, inlineScripts: seq<Script>, nextDataElement: Option<Payload>)
}
