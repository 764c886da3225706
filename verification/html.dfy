/**
 * An already-parsed wiki page, reduced to what the extractors look at. Every
 * text is what `get_text(" ", strip=True)` (or `get_text(strip=True)` for
 * headings) returned for that element.
 */
module Html {
  import opened Wrappers

  /** An element carrying a `data-source` attribute: the attribute value and the element's text. */
  datatype DataItem = DataItem(source: string, text: string)

  /** A `<tr>`: the text of its first `<th>` and of its first `<td>`, when present. */
  datatype Row = Row(th: Option<string>, td: Option<string>)

  /** An infobox container: its `[data-source]` elements and its `<tr>` rows, in document order. */
  datatype Container = Container(items: seq<DataItem>, rows: seq<Row>)

  /** The elements `find_all_next` visits after a heading, flattened in document order. */
  datatype Block =
    | Heading(level: nat, text: string)   // <h1> .. <h6>
    | List(items: seq<string>)            // <ul>/<ol> with the texts of its <li> elements
    | Para(text: string)                  // <p>
    | Other                               // any other element

  /** A `<table>`: the texts of all its `<th>` cells, and per `<tr>` the texts of its `<td>`/`<th>` cells. */
  datatype Table = Table(headers: seq<string>, rows: seq<seq<string>>)

  /**
   * A page: the texts of `#firstHeading` and of the first `<h1>`, the first
   * `.portable-infobox` and first `table.infobox` containers, the document's
   * blocks and its tables.
   */
  datatype Page = Page(
    firstHeading: Option<string>,
    h1: Option<string>,
    portable: Option<Container>,
    classic: Option<Container>,
    blocks: seq<Block>,
    tables: seq<Table>)
}
