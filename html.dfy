/** The parts of a parsed HTML page the scrapers read, as plain values: an
    element is the sequence of its text nodes, a table a sequence of rows,
    a row the sequence of its `td` cells. */
module Html {
  import opened Wrappers
  import opened Strings

  /** An element, seen through its text nodes in document order. */
  datatype Element = Element(strings: seq<string>)

  /** The text nodes that are not blank, each stripped. */
  function StrippedStrings(xs: seq<string>): (r: seq<string>)
    ensures |r| <= |xs|
    ensures forall k :: 0 <= k < |r| ==> r[k] != []
  {
    if xs == [] then []
    else if Strip(xs[0]) == [] then StrippedStrings(xs[1..])
    else [Strip(xs[0])] + StrippedStrings(xs[1..])
  }

  /** `get_text(strip=True)`. */
  function Text(e: Element): string {
    Concat(StrippedStrings(e.strings))
  }

  /** `get_text()`: every text node, unchanged. */
  function RawText(e: Element): string {
    Concat(e.strings)
  }

  /** `get_text(separator=sep)`. */
  function JoinedText(e: Element, sep: string): string {
    Join(sep, e.strings)
  }

  /** `get_text(sep, strip=True)`. */
  function JoinedStrippedText(e: Element, sep: string): string {
    Join(sep, StrippedStrings(e.strings))
  }

  /** An `img` tag; `src` is absent when the tag has no such attribute. */
  datatype Img = Img(src: Option<string>)

  /** `img.get('src', '')`. */
  function SrcOf(i: Img): string {
    if i.src.Some? then i.src.value else ""
  }

  /** A `td`: its text, its markup as `str(td)` renders it, its first
      `img` descendant and its class names. */
  datatype Cell = Cell(content: Element, markup: string, img: Option<Img>, classes: seq<string>)

  /** A `tr`: its `td` cells and its `hidden` attribute. */
  datatype Row = Row(cells: seq<Cell>, hidden: Option<string>)

  /** A `table`: its class names and its rows. */
  datatype Table = Table(classes: seq<string>, rows: seq<Row>)

  /** A record page's `div#divNaslov`, with its `span.hidden` if it has one. */
  datatype TitleDiv = TitleDiv(hiddenSpan: Option<Element>)

  /** The outcome of an HTTP request: the parsed page, or the text of the
      exception that a failed request or an error status raised. */
  datatype Fetch<T> = Fetched(page: T) | FetchFailed(message: string)
}
