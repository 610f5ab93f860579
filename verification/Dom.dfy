/** The parsed document: what the converters of src/actions/scrape.rs see of scraper's tree. */
module Dom {

  /** A `Fragment` holds the contents of a `template` and is neither an element nor a text, so that
      walks over children pass it by; only `descendants` goes through it. */
  datatype Node =
    | Element(name: string, attrs: map<string, string>, children: seq<Node>)
    | Fragment(children: seq<Node>)
    | Text(text: string)
    | Other   // comments, doctypes, processing instructions

  /** scraper's `ElementRef`. */
  type ElementRef = n: Node | n.Element? witness Element("", map[], [])

  /** `el.value().attr(key).unwrap_or("")`. */
  function Attr(attrs: map<string, string>, key: string): string {
    if key in attrs then attrs[key] else ""
  }

  /** The arms of `walk_element`'s match. */
  datatype Kind =
    | Heading(level: nat) | Paragraph | Break | Rule | Blockquote | Preformatted | CodeSpan
    | UnorderedList | OrderedList | ListItem | Anchor | Image
    | Wrapped(open: string, close: string)
    | Skipped | Frame | Cell | Line | Plain

  function KindOf(name: string): Kind {
    if name == "h1" then Heading(1)
    else if name == "h2" then Heading(2)
    else if name == "h3" then Heading(3)
    else if name == "h4" then Heading(4)
    else if name == "h5" then Heading(5)
    else if name == "h6" then Heading(6)
    else if name == "p" then Paragraph
    else if name == "br" then Break
    else if name == "hr" then Rule
    else if name == "blockquote" then Blockquote
    else if name == "pre" then Preformatted
    else if name in {"code", "kbd"} then CodeSpan
    else if name == "ul" then UnorderedList
    else if name == "ol" then OrderedList
    else if name == "li" then ListItem
    else if name == "a" then Anchor
    else if name == "img" then Image
    else if name in {"strong", "b"} then Wrapped("**", "**")
    else if name in {"em", "i"} then Wrapped("*", "*")
    else if name in {"del", "s"} then Wrapped("~~", "~~")
    else if name == "q" then Wrapped("\"", "\"")
    else if name == "sub" then Wrapped("_{", "}")
    else if name == "sup" then Wrapped("^", "^")
    else if name in {"script", "style", "head", "nav", "footer", "aside", "form", "svg", "math",
                     "input", "button", "select", "textarea"} then Skipped
    else if name == "iframe" then Frame
    else if name in {"td", "th"} then Cell
    else if name in {"tr", "table"} then Line
    else Plain
  }

  /** `text_skip_element`, the exclusions of the plain-text walker. */
  predicate TextSkipped(name: string) {
    name in {"script", "style", "nav", "footer", "aside", "head"}
  }

  /** The texts of one node and of all below it. */
  function TextsAt(n: Node): seq<string>
    decreases n, 2
  {
    match n
    case Element(_, _, children) => AllTexts(children)
    case Fragment(children) => AllTexts(children)
    case Text(t) => [t]
    case Other => []
  }

  /** The texts below `nodes`, in document order: scraper's `descendants`, text nodes only. */
  function AllTexts(nodes: seq<Node>): seq<string>
    decreases nodes, 0
  {
    if nodes == [] then [] else TextsAt(nodes[0]) + AllTexts(nodes[1..])
  }

  /** The texts directly among `nodes`. */
  function DirectTexts(nodes: seq<Node>): seq<string> {
    if nodes == [] then []
    else (if nodes[0].Text? then [nodes[0].text] else []) + DirectTexts(nodes[1..])
  }

  /** What the plain-text walker skips the Markdown walker skips too. */
  lemma TextSkippedIsSkipped(name: string)
    requires TextSkipped(name)
    ensures KindOf(name) == Skipped
  {
    assert name[0] in {'s', 'n', 'f', 'a', 'h'};
  }
}
