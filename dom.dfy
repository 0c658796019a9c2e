/**
 * The parsed page as the selector engine presents it: every selector maps to
 * the ordered sequence of elements it matches, and every element offers its
 * attributes and its text content.
 */
module Dom {
  import opened Options

  /** One matched element: its attributes and its text content. */
  datatype Element = Element(attrs: map<string, string>, text: string)

  /** A parsed document: the matches of each selector, in document order. */
  datatype Document = Document(matches: map<string, seq<Element>>)

  /** `$(element).attr(name)`: the attribute's value, or undefined when absent. */
  function Attr(e: Element, name: string): (v: Option<string>)
    ensures v.Some? <==> name in e.attrs
    ensures v.Some? ==> v.value == e.attrs[name]
  {
    if name in e.attrs then Some(e.attrs[name]) else None
  }

  /** `$(selector)`: the matched elements in document order; none for an unknown selector. */
  function Select(doc: Document, selector: string): seq<Element>
  {
    if selector in doc.matches then doc.matches[selector] else []
  }

  /** `.text()` of a whole selection: the texts of its elements, concatenated. */
  function Text(es: seq<Element>): (t: string)
    ensures es == [] ==> t == ""
    ensures |es| == 1 ==> t == es[0].text
    decreases |es|
  {
    if es == [] then "" else es[0].text + Text(es[1..])
  }

  /** The selector of the page's error banner. */
  const ErrorAreaSelector: string := ".errorArea"

  /** The site's generic "an unexpected error occurred." message. */
  const UnexpectedErrorPhrase: string := "想定外のエラーが発生しました。"

  /**
   * The page classifier for a search page: the banner's text must equal the
   * phrase exactly; any other text, the empty text included, is a results page.
   */
  predicate ShowsErrorBanner(doc: Document)
  {
    Text(Select(doc, ErrorAreaSelector)) == UnexpectedErrorPhrase
  }

  /** A page without a banner element, or with an empty one, is never classified as empty. */
  lemma NoBannerTextNoResults(doc: Document)
    requires Text(Select(doc, ErrorAreaSelector)) == ""
    ensures !ShowsErrorBanner(doc)
  {
  }
}
