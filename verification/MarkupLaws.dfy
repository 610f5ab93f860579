/** The Markdown that each element becomes, by its literal name, as a reader of the output sees it. */
module MarkupLaws {
  import opened Dom
  import opened Wrappers
  import opened Sequences
  import opened Glyphs
  import opened Markdown
  import D = DomToMarkdown
  import L = WhitespaceLaws
  import T = Text
  import W = Whitespace

  type Attrs = map<string, string>

  /** What an element appends to a buffer that ends in a newline if `nl`. */
  ghost function Md(name: string, attrs: Attrs, cs: seq<Node>, nl: bool, depth: nat): string {
    Erase(Emit(Element(name, attrs, cs), nl, depth))
  }

  /** What its children append. */
  ghost function Inner(cs: seq<Node>, nl: bool, depth: nat): string {
    Erase(EmitChildren(cs, nl, depth))
  }

  /** Whether a buffer ends in a newline once `s` is appended. */
  predicate Ends(s: string, nl: bool) {
    if s == "" then nl else s[|s| - 1] == '\n'
  }

  function Spaces(n: nat): string {
    seq(n, k => ' ')
  }

  function Flat(pieces: seq<string>): string {
    if pieces == [] then "" else pieces[0] + Flat(pieces[1..])
  }

  lemma {:induction false} SpacesAre(n: nat)
    ensures Repeat("  ", n) == Spaces(2 * n)
  {
    if n == 0 {
    } else {
      SpacesAre(n - 1);
      assert "  " + Spaces(2 * (n - 1)) == Spaces(2 * n);
    }
  }

  lemma Between(open: string, gs: seq<Glyph>, close: string)
    ensures Erase(Markup(open) + gs + Markup(close)) == open + Erase(gs) + close
    ensures Erase(gs + Markup(close)) == Erase(gs) + close
    ensures Erase(Markup(open)) == open
  {
    EraseConcat(Markup(open) + gs, Markup(close));
    EraseConcat(Markup(open), gs);
    EraseConcat(gs, Markup(close));
    EraseTag(open, false);
    EraseTag(close, false);
  }

  lemma Closed(gs: seq<Glyph>, nl: bool)
    ensures Erase(CloseBlock(gs, nl)) == Erase(gs) + if Ends(Erase(gs), nl) then "\n" else "\n\n"
  {
    Between("", gs, if NlAfter(nl, gs) then "\n" else "\n\n");
  }

  lemma EndsIs(gs: seq<Glyph>, nl: bool)
    ensures Ends(Erase(gs), nl) == NlAfter(nl, gs)
  {
  }

  // ---------------------------------------------------------------------------------------------
  // Marks around children

  lemma StyleKinds()
    ensures KindOf("strong") == KindOf("b") == Wrapped("**", "**")
    ensures KindOf("em") == KindOf("i") == Wrapped("*", "*")
    ensures KindOf("del") == KindOf("s") == Wrapped("~~", "~~")
  {
  }

  lemma QuoteKinds()
    ensures KindOf("q") == Wrapped("\"", "\"")
    ensures KindOf("sub") == Wrapped("_{", "}")
    ensures KindOf("sup") == Wrapped("^", "^")
  {
  }

  lemma CellKinds()
    ensures KindOf("td") == Cell
    ensures KindOf("th") == Cell
  {
  }

  lemma LineKinds()
    ensures KindOf("tr") == Line
    ensures KindOf("table") == Line
  {
  }

  lemma WrappedText(name: string, open: string, close: string, attrs: Attrs, cs: seq<Node>, nl: bool, depth: nat)
    requires KindOf(name) == Wrapped(open, close)
    ensures Md(name, attrs, cs, nl, depth) == open + Inner(cs, false, depth) + close
  {
    hide KindOf;
    hide EmitChildren;
    Between(open, EmitChildren(cs, false, depth), close);
  }

  lemma FollowedText(name: string, close: string, attrs: Attrs, cs: seq<Node>, nl: bool, depth: nat)
    requires (KindOf(name) == Cell && close == " ") || (KindOf(name) == Line && close == "\n")
    ensures Md(name, attrs, cs, nl, depth) == Inner(cs, nl, depth) + close
  {
    hide KindOf;
    hide EmitChildren;
    Between("", EmitChildren(cs, nl, depth), close);
  }

  /** Inline styles stand between their marks. */
  lemma InlineMarks(attrs: Attrs, cs: seq<Node>, nl: bool, depth: nat)
    ensures Md("strong", attrs, cs, nl, depth) == "**" + Inner(cs, false, depth) + "**"
    ensures Md("b", attrs, cs, nl, depth) == "**" + Inner(cs, false, depth) + "**"
    ensures Md("em", attrs, cs, nl, depth) == "*" + Inner(cs, false, depth) + "*"
    ensures Md("i", attrs, cs, nl, depth) == "*" + Inner(cs, false, depth) + "*"
    ensures Md("del", attrs, cs, nl, depth) == "~~" + Inner(cs, false, depth) + "~~"
    ensures Md("s", attrs, cs, nl, depth) == "~~" + Inner(cs, false, depth) + "~~"
    ensures Md("q", attrs, cs, nl, depth) == "\"" + Inner(cs, false, depth) + "\""
    ensures Md("sub", attrs, cs, nl, depth) == "_{" + Inner(cs, false, depth) + "}"
    ensures Md("sup", attrs, cs, nl, depth) == "^" + Inner(cs, false, depth) + "^"
  {
    hide *;
    StyleKinds();
    QuoteKinds();
    WrappedText("strong", "**", "**", attrs, cs, nl, depth);
    WrappedText("b", "**", "**", attrs, cs, nl, depth);
    WrappedText("em", "*", "*", attrs, cs, nl, depth);
    WrappedText("i", "*", "*", attrs, cs, nl, depth);
    WrappedText("del", "~~", "~~", attrs, cs, nl, depth);
    WrappedText("s", "~~", "~~", attrs, cs, nl, depth);
    WrappedText("q", "\"", "\"", attrs, cs, nl, depth);
    WrappedText("sub", "_{", "}", attrs, cs, nl, depth);
    WrappedText("sup", "^", "^", attrs, cs, nl, depth);
  }

  lemma TableMarks(attrs: Attrs, cs: seq<Node>, nl: bool, depth: nat)
    ensures Md("td", attrs, cs, nl, depth) == Inner(cs, nl, depth) + " "
    ensures Md("th", attrs, cs, nl, depth) == Inner(cs, nl, depth) + " "
    ensures Md("tr", attrs, cs, nl, depth) == Inner(cs, nl, depth) + "\n"
    ensures Md("table", attrs, cs, nl, depth) == Inner(cs, nl, depth) + "\n"
  {
    hide *;
    CellKinds();
    LineKinds();
    FollowedText("td", " ", attrs, cs, nl, depth);
    FollowedText("th", " ", attrs, cs, nl, depth);
    FollowedText("tr", "\n", attrs, cs, nl, depth);
    FollowedText("table", "\n", attrs, cs, nl, depth);
  }

  lemma RuleAndBreak(attrs: Attrs, cs: seq<Node>, nl: bool, depth: nat)
    ensures Md("hr", attrs, cs, nl, depth) == "---\n\n"
    ensures Md("br", attrs, cs, nl, depth) == "\n"
  {
    hide Markup;
    Between("---\n\n", [], "");
    Between("\n", [], "");
  }

  lemma SkippedPageParts()
    ensures KindOf("head") == Skipped && KindOf("nav") == Skipped
    ensures KindOf("footer") == Skipped && KindOf("aside") == Skipped
  {
  }

  lemma SkippedCode()
    ensures KindOf("script") == Skipped && KindOf("style") == Skipped
    ensures KindOf("svg") == Skipped && KindOf("math") == Skipped
  {
  }

  lemma SkippedForms()
    ensures KindOf("form") == Skipped && KindOf("input") == Skipped && KindOf("button") == Skipped
  {
  }

  lemma SkippedFields()
    ensures KindOf("select") == Skipped && KindOf("textarea") == Skipped
  {
  }

  lemma SkippedText(name: string, attrs: Attrs, cs: seq<Node>, nl: bool, depth: nat)
    requires KindOf(name) == Skipped
    ensures Md(name, attrs, cs, nl, depth) == ""
  {
    hide KindOf;
  }

  /** Elements that are not for reading write nothing. */
  lemma SkippedWriteNothing(name: string, attrs: Attrs, cs: seq<Node>, nl: bool, depth: nat)
    requires name in {"script", "style", "head", "nav", "footer", "aside", "form", "svg", "math",
                      "input", "button", "select", "textarea"}
    ensures Md(name, attrs, cs, nl, depth) == ""
  {
    hide *;
    SkippedPageParts();
    SkippedCode();
    SkippedForms();
    SkippedFields();
    SkippedText(name, attrs, cs, nl, depth);
  }

  /** Elements without a meaning of their own write what their children do. */
  lemma OthersAreTransparent(name: string, attrs: Attrs, cs: seq<Node>, nl: bool, depth: nat)
    requires name !in {"h1", "h2", "h3", "h4", "h5", "h6", "p", "br", "hr", "blockquote", "pre", "code", "kbd",
                       "ul", "ol", "li", "a", "img", "strong", "b", "em", "i", "del", "s", "q", "sub", "sup",
                       "iframe", "td", "th", "tr", "table",
                       "script", "style", "head", "nav", "footer", "aside", "form", "svg", "math",
                       "input", "button", "select", "textarea"}
    ensures Md(name, attrs, cs, nl, depth) == Inner(cs, nl, depth)
  {
    assert KindOf(name) == Plain;
  }

  // ---------------------------------------------------------------------------------------------
  // Blocks

  lemma {:induction false} Hashes()
    ensures Repeat("#", 1) == "#" && Repeat("#", 2) == "##" && Repeat("#", 3) == "###"
    ensures Repeat("#", 4) == "####" && Repeat("#", 5) == "#####" && Repeat("#", 6) == "######"
  {
    assert Repeat("#", 0) == "";
    assert Repeat("#", 1) == "#" + Repeat("#", 0);
    assert Repeat("#", 2) == "#" + Repeat("#", 1);
    assert Repeat("#", 3) == "#" + Repeat("#", 2);
    assert Repeat("#", 4) == "#" + Repeat("#", 3);
    assert Repeat("#", 5) == "#" + Repeat("#", 4);
  }

  /** A heading of some level, told by its mark. */
  ghost predicate IsHeading(md: string, mark: string, inner: string) {
    md == mark + inner + if Ends(inner, false) then "\n" else "\n\n"
  }

  lemma HeadingText(level: nat, gs: seq<Glyph>, nl: bool, mark: string)
    requires mark == Repeat("#", level) + " "
    ensures IsHeading(Erase(CloseBlock(Markup(mark) + gs, nl)), mark, Erase(gs))
  {
    Closed(Markup(mark) + gs, nl);
    EraseConcat(Markup(mark), gs);
    EraseTag(mark, false);
    assert mark[|mark| - 1] == ' ';
  }

  lemma Headings(attrs: Attrs, cs: seq<Node>, nl: bool, depth: nat)
    ensures IsHeading(Md("h1", attrs, cs, nl, depth), "# ", Inner(cs, false, depth))
    ensures IsHeading(Md("h2", attrs, cs, nl, depth), "## ", Inner(cs, false, depth))
    ensures IsHeading(Md("h3", attrs, cs, nl, depth), "### ", Inner(cs, false, depth))
    ensures IsHeading(Md("h4", attrs, cs, nl, depth), "#### ", Inner(cs, false, depth))
    ensures IsHeading(Md("h5", attrs, cs, nl, depth), "##### ", Inner(cs, false, depth))
    ensures IsHeading(Md("h6", attrs, cs, nl, depth), "###### ", Inner(cs, false, depth))
  {
    var gs := EmitChildren(cs, false, depth);
    Hashes();
    hide EmitChildren;
    hide CloseBlock;
    hide Repeat;
    hide Markup;
    hide IsHeading;
    HeadingText(1, gs, nl, "# ");
    HeadingText(2, gs, nl, "## ");
    HeadingText(3, gs, nl, "### ");
    HeadingText(4, gs, nl, "#### ");
    HeadingText(5, gs, nl, "##### ");
    HeadingText(6, gs, nl, "###### ");
  }

  lemma Paragraphs(attrs: Attrs, cs: seq<Node>, nl: bool, depth: nat)
    ensures
      var inner := Inner(cs, nl, depth);
      Md("p", attrs, cs, nl, depth) == inner + if Ends(inner, nl) then "\n" else "\n\n"
  {
    hide EmitChildren;
    hide CloseBlock;
    Closed(EmitChildren(cs, nl, depth), nl);
  }

  lemma {:induction false} VerbatimIsFlat(ts: seq<string>)
    ensures Erase(EmitVerbatim(ts)) == Flat(ts)
  {
    if ts == [] {
    } else {
      VerbatimIsFlat(ts[1..]);
      EraseConcat(Ink(ts[0]), EmitVerbatim(ts[1..]));
      EraseTag(ts[0], true);
    }
  }

  /** Preformatted text stands between fences on lines of their own. */
  lemma Fences(attrs: Attrs, cs: seq<Node>, nl: bool, depth: nat)
    ensures
      var text := Flat(AllTexts(cs));
      Md("pre", attrs, cs, nl, depth) == "```\n" + text + if Ends(text, true) then "```\n\n" else "\n```\n\n"
  {
    var gs := EmitVerbatim(AllTexts(cs));
    VerbatimIsFlat(AllTexts(cs));
    EndsIs(gs, true);
    hide EmitVerbatim;
    hide AllTexts;
    hide Markup;
    Between("```\n", gs, "```\n\n");
    Between("```\n", gs, "\n```\n\n");
  }

  /** The direct texts of a code span, each trimmed, in one piece. */
  function TrimmedTexts(ts: seq<string>): string {
    if ts == [] then "" else T.Trim(ts[0]) + TrimmedTexts(ts[1..])
  }

  lemma {:induction false} TrimmedIsFlat(cs: seq<Node>)
    ensures Erase(EmitTrimmed(cs)) == TrimmedTexts(DirectTexts(cs))
  {
    hide T.Trim;
    if cs == [] {
    } else {
      TrimmedIsFlat(cs[1..]);
      if cs[0].Text? {
        EraseConcat(Ink(T.Trim(cs[0].text)), EmitTrimmed(cs[1..]));
        EraseTag(T.Trim(cs[0].text), true);
        assert ([cs[0].text] + DirectTexts(cs[1..]))[1..] == DirectTexts(cs[1..]);
      } else {
        assert [] + EmitTrimmed(cs[1..]) == EmitTrimmed(cs[1..]);
        assert [] + DirectTexts(cs[1..]) == DirectTexts(cs[1..]);
      }
    }
  }

  lemma CodeMarks(attrs: Attrs, cs: seq<Node>, nl: bool, depth: nat)
    ensures Md("code", attrs, cs, nl, depth) == "`" + TrimmedTexts(DirectTexts(cs)) + "`"
    ensures Md("kbd", attrs, cs, nl, depth) == "`" + TrimmedTexts(DirectTexts(cs)) + "`"
  {
    TrimmedIsFlat(cs);
    hide EmitTrimmed;
    hide TrimmedTexts;
    hide DirectTexts;
    hide Markup;
    Between("`", EmitTrimmed(cs), "`");
  }

  // ---------------------------------------------------------------------------------------------
  // Lists

  /** The element children. */
  function Elements(cs: seq<Node>): (es: seq<Node>)
    ensures forall k :: 0 <= k < |es| ==> es[k].Element?
  {
    if cs == [] then [] else (if cs[0].Element? then [cs[0]] else []) + Elements(cs[1..])
  }

  function ReadDecimal(s: string): int {
    if s == [] then 0 else ReadDecimal(s[..|s| - 1]) * 10 + (s[|s| - 1] as int - '0' as int)
  }

  /** Decimals: digits only, no leading zero, and they read as the number. */
  lemma {:induction false} DigitsMeaning(n: nat)
    ensures ReadDecimal(Digits(n)) == n
    ensures forall k :: 0 <= k < |Digits(n)| ==> '0' <= Digits(n)[k] <= '9'
    ensures n > 0 ==> Digits(n)[0] != '0'
    ensures n == 0 ==> Digits(n) == "0"
  {
    var d := [((n % 10) + ('0' as int)) as char];
    if n < 10 {
      assert Digits(n) == d && d[..0] == [];
    } else {
      DigitsMeaning(n / 10);
      assert Digits(n)[..|Digits(n)| - 1] == Digits(n / 10);
    }
  }

  /** One item: the indent, its mark, what its children write, and the end of the line. */
  function Item(indent: nat, mark: string, inner: string): string {
    Spaces(indent) + mark + inner + "\n"
  }

  lemma ItemText(indent: nat, mark: string, gs: seq<Glyph>)
    ensures Erase(Markup(Repeat("  ", indent) + mark) + gs + Markup("\n")) == Item(2 * indent, mark, Erase(gs))
  {
    SpacesAre(indent);
    Between(Repeat("  ", indent) + mark, gs, "\n");
  }

  /** A list item by itself: indented by its list's level. */
  lemma ListItems(attrs: Attrs, cs: seq<Node>, nl: bool, depth: nat)
    ensures Md("li", attrs, cs, nl, depth)
         == Item(if depth == 0 then 0 else 2 * (depth - 1), "- ", Inner(cs, false, depth))
  {
    hide EmitChildren;
    hide Repeat;
    hide Markup;
    hide Item;
    ItemText(if depth == 0 then 0 else depth - 1, "- ", EmitChildren(cs, false, depth));
  }

  lemma {:induction false} ItemsText(cs: seq<Node>, depth: nat, idx: nat) returns (blocks: seq<string>)
    ensures |blocks| == |Elements(cs)|
    ensures forall k :: 0 <= k < |blocks| ==>
      blocks[k] == Item(2 * depth, Digits(idx + k) + ". ", Inner(Elements(cs)[k].children, false, depth + 1))
    ensures Erase(EmitItems(cs, depth + 1, idx)) == Flat(blocks)
    decreases cs
  {
    hide Item;
    hide Digits;
    hide EmitChildren;
    hide Repeat;
    blocks := [];
    if cs == [] {
    } else if !cs[0].Element? {
      blocks := ItemsText(cs[1..], depth, idx);
    } else {
      var rest := ItemsText(cs[1..], depth, idx + 1);
      var gs := EmitItem(cs[0], depth + 1, idx);
      Regroup(Repeat("  ", depth), Digits(idx), ". ");
      ItemText(depth, Digits(idx) + ". ", EmitChildren(cs[0].children, false, depth + 1));
      EraseConcat(gs, EmitItems(cs[1..], depth + 1, idx + 1));
      blocks := [Erase(gs)] + rest;
      assert Elements(cs) == [cs[0]] + Elements(cs[1..]);
      hide Elements;
      forall k | 0 <= k < |blocks|
        ensures blocks[k] == Item(2 * depth, Digits(idx + k) + ". ", Inner(Elements(cs)[k].children, false, depth + 1))
      {
        if k > 0 { assert blocks[k] == rest[k - 1] && Elements(cs)[k] == Elements(cs[1..])[k - 1]; }
      }
      assert blocks[1..] == rest;
    }
  }

  /** An ordered list numbers its element children from one. */
  lemma OrderedLists(attrs: Attrs, cs: seq<Node>, nl: bool, depth: nat) returns (blocks: seq<string>)
    ensures |blocks| == |Elements(cs)|
    ensures forall k :: 0 <= k < |blocks| ==>
      blocks[k] == Item(2 * depth, Digits(1 + k) + ". ", Inner(Elements(cs)[k].children, false, depth + 1))
    ensures Md("ol", attrs, cs, nl, depth) == Flat(blocks) + "\n"
  {
    assert Md("ol", attrs, cs, nl, depth) == Erase(EmitItems(cs, depth + 1, 1) + Markup("\n")) by {
      assert KindOf("ol") == OrderedList;
      hide KindOf;
      hide EmitItems;
    }
    hide *;
    blocks := ItemsText(cs, depth, 1);
    Between("", EmitItems(cs, depth + 1, 1), "\n");
  }

  lemma FirstElement(cs: seq<Node>)
    requires cs != [] && cs[0].Element?
    ensures Elements(cs) == [cs[0]] + Elements(cs[1..]) && Elements(cs)[0] == cs[0]
    ensures forall k :: 0 <= k < |Elements(cs[1..])| ==> Elements(cs[1..])[k] == Elements(cs)[k + 1]
  {
  }

  lemma MdIs(el: Node, nl: bool, depth: nat)
    requires el.Element?
    ensures Md(el.name, el.attrs, el.children, nl, depth) == Erase(Emit(el, nl, depth))
  {
    assert Element(el.name, el.attrs, el.children) == el;
  }

  lemma EndsLast(s: string, nl: bool)
    requires s != "" && s[|s| - 1] == '\n'
    ensures Ends(s, nl)
  {
  }

  lemma FirstBullet(li: Node, nl: bool, depth: nat) returns (text: string)
    requires li.Element? && li.name == "li"
    ensures text == Erase(Emit(li, nl, depth + 1))
    ensures text == Item(2 * depth, "- ", Inner(li.children, false, depth + 1))
    ensures NlAfter(nl, Emit(li, nl, depth + 1))
  {
    var inner := Inner(li.children, false, depth + 1);
    text := Item(2 * depth, "- ", inner);
    assert text[|text| - 1] == '\n';
    hide *;
    ListItems(li.attrs, li.children, nl, depth + 1);
    assert Element(li.name, li.attrs, li.children) == li;
    MdIs(li, nl, depth + 1);
    EndsIs(Emit(li, nl, depth + 1), nl);
    EndsLast(text, nl);
  }

  lemma LastOfConcat(a: seq<Glyph>, b: seq<Glyph>, nl: bool)
    ensures NlAfter(nl, a + b) == NlAfter(NlAfter(nl, a), b)
  {
  }

  lemma {:induction false} BulletsText(cs: seq<Node>, nl: bool, depth: nat) returns (blocks: seq<string>)
    requires forall k :: 0 <= k < |Elements(cs)| ==> Elements(cs)[k].name == "li"
    ensures |blocks| == |Elements(cs)|
    ensures forall k :: 0 <= k < |blocks| ==>
      blocks[k] == Item(2 * depth, "- ", Inner(Elements(cs)[k].children, false, depth + 1))
    ensures Erase(EmitElements(cs, nl, depth + 1)) == Flat(blocks)
    ensures NlAfter(nl, EmitElements(cs, nl, depth + 1)) == (blocks != [] || nl)
    decreases cs
  {
    hide EmitChildren;
    hide KindOf;
    blocks := [];
    if cs == [] {
    } else if !cs[0].Element? {
      assert Elements(cs) == Elements(cs[1..]);
      blocks := BulletsText(cs[1..], nl, depth);
      assert EmitElements(cs, nl, depth + 1) == EmitElements(cs[1..], nl, depth + 1);
    } else {
      var li := cs[0];
      FirstElement(cs);
      var text := FirstBullet(li, nl, depth);
      var rest := BulletsText(cs[1..], true, depth);
      var gs, gs' := Emit(li, nl, depth + 1), EmitElements(cs[1..], true, depth + 1);
      assert EmitElements(cs, nl, depth + 1) == gs + gs';
      assert Flat([text] + rest) == text + Flat(rest) by {
        assert ([text] + rest)[1..] == rest;
      }
      blocks := [text] + rest;
      hide *;
      EraseConcat(gs, gs');
      LastOfConcat(gs, gs', nl);
      forall k | 0 <= k < |blocks|
        ensures blocks[k] == Item(2 * depth, "- ", Inner(Elements(cs)[k].children, false, depth + 1))
      {
        if k > 0 { assert blocks[k] == rest[k - 1] && Elements(cs)[k] == Elements(cs[1..])[k - 1]; }
      }
    }
  }

  /** An unordered list of items puts a dash before each. */
  lemma UnorderedLists(attrs: Attrs, cs: seq<Node>, nl: bool, depth: nat) returns (blocks: seq<string>)
    requires forall k :: 0 <= k < |Elements(cs)| ==> Elements(cs)[k].name == "li"
    ensures |blocks| == |Elements(cs)|
    ensures forall k :: 0 <= k < |blocks| ==>
      blocks[k] == Item(2 * depth, "- ", Inner(Elements(cs)[k].children, false, depth + 1))
    ensures Md("ul", attrs, cs, nl, depth) == Flat(blocks) + if blocks != [] || nl then "\n" else "\n\n"
  {
    blocks := BulletsText(cs, nl, depth);
    var gs := EmitElements(cs, nl, depth + 1);
    hide EmitElements;
    hide Flat;
    EndsIs(gs, nl);
    Closed(gs, nl);
    assert KindOf("ul") == UnorderedList;
  }

  // ---------------------------------------------------------------------------------------------
  // Links, images and frames

  function Attribute(attrs: Attrs, key: string): string {
    if key in attrs then attrs[key] else ""
  }

  lemma Links(attrs: Attrs, cs: seq<Node>, nl: bool, depth: nat)
    ensures Md("a", attrs, cs, nl, depth) == "[" + Inner(cs, false, depth) + "](" + Attribute(attrs, "href") + ")"
  {
    var gs, href := EmitChildren(cs, false, depth), Attribute(attrs, "href");
    assert Md("a", attrs, cs, nl, depth) == Erase(Markup("[") + gs + Markup("](" + href + ")")) by {
      assert KindOf("a") == Anchor;
      hide KindOf;
      hide EmitChildren;
    }
    hide *;
    Between("[", gs, "](" + href + ")");
    var text := Erase(gs);
    assert "[" + text + ("](" + href + ")") == "[" + text + "](" + href + ")";
  }

  lemma Images(attrs: Attrs, cs: seq<Node>, nl: bool, depth: nat)
    ensures Md("img", attrs, cs, nl, depth) == "![" + Attribute(attrs, "alt") + "](" + Attribute(attrs, "src") + ")"
  {
    assert KindOf("img") == Image;
    hide KindOf;
    EraseTag("![" + Attribute(attrs, "alt") + "](" + Attribute(attrs, "src") + ")", false);
  }

  lemma Frames(attrs: Attrs, cs: seq<Node>, nl: bool, depth: nat)
    ensures
      var src := Attribute(attrs, "src");
      Md("iframe", attrs, cs, nl, depth) == if src == "" then "" else "[iframe: " + src + "]"
  {
    assert KindOf("iframe") == Frame;
    hide KindOf;
    EraseTag("[iframe: " + Attribute(attrs, "src") + "]", false);
  }

  /** Where "](" stands first. */
  function FindMark(s: string): (n: nat)
    ensures n <= |s|
  {
    if s == "" || StartsWith(s, "](") then 0 else 1 + FindMark(s[1..])
  }

  /** Reads a link back: "[", the text up to the first "](", the address, ")". */
  function ReadLink(s: string): Option<(string, string)> {
    if |s| < 2 || s[0] != '[' || s[|s| - 1] != ')' then None
    else
      var body := s[1..|s| - 1];
      var n := FindMark(body);
      if n + 2 > |body| then None else Some((body[..n], body[n + 2..]))
  }

  lemma {:induction false} FindMarkIs(text: string, address: string)
    requires forall k :: 0 <= k < |text| - 1 ==> !(text[k] == ']' && text[k + 1] == '(')
    ensures FindMark(text + "](" + address) == |text|
  {
    var s := text + "](" + address;
    if text == "" {
      assert s[..2] == "](";
    } else {
      assert s[1..] == text[1..] + "](" + address;
      assert forall k :: 0 <= k < |text| - 1 ==> text[1..][k] == text[k + 1];
      FindMarkIs(text[1..], address);
      assert s[..2][0] == text[0] && s[..2][1] == if |text| > 1 then text[1] else ']';
    }
  }

  lemma {:induction false} FindMarkAtMost(s: string, k: nat)
    requires k + 1 < |s| && s[k] == ']' && s[k + 1] == '('
    ensures FindMark(s) <= k
  {
    if k == 0 {
      assert s[..2] == "](";
    } else {
      FindMarkAtMost(s[1..], k - 1);
    }
  }

  /** The mark between the text and the address of a link does not stand in the text itself. */
  ghost predicate NoMarkIn(text: string) {
    forall k :: 0 <= k < |text| - 1 ==> !(text[k] == ']' && text[k + 1] == '(')
  }

  /** A reader gets the text and the address of a link back, whatever the address, exactly if the text does
      not itself contain the mark between them. */
  lemma LinkRoundTrip(text: string, address: string)
    ensures ReadLink("[" + text + "](" + address + ")") == Some((text, address)) <==> NoMarkIn(text)
  {
    var s, body := "[" + text + "](" + address + ")", text + "](" + address;
    assert s[1..|s| - 1] == body;
    assert s[0] == '[' && s[|s| - 1] == ')';
    if NoMarkIn(text) {
      FindMarkIs(text, address);
      assert body[..|text|] == text && body[|text| + 2..] == address;
    } else {
      var k :| 0 <= k < |text| - 1 && text[k] == ']' && text[k + 1] == '(';
      assert body[k] == text[k] && body[k + 1] == text[k + 1];
      FindMarkAtMost(body, k);
    }
  }

  lemma LinkReadsBack(attrs: Attrs, cs: seq<Node>, nl: bool, depth: nat)
    ensures ReadLink(Md("a", attrs, cs, nl, depth)) == Some((Inner(cs, false, depth), Attribute(attrs, "href")))
       <==> NoMarkIn(Inner(cs, false, depth))
  {
    hide *;
    Links(attrs, cs, nl, depth);
    LinkRoundTrip(Inner(cs, false, depth), Attribute(attrs, "href"));
  }

  lemma ImageReadsBack(attrs: Attrs, cs: seq<Node>, nl: bool, depth: nat)
    ensures
      var md := Md("img", attrs, cs, nl, depth);
      && |md| > 0
      && md[0] == '!'
      && (ReadLink(md[1..]) == Some((Attribute(attrs, "alt"), Attribute(attrs, "src")))
          <==> NoMarkIn(Attribute(attrs, "alt")))
  {
    hide *;
    Images(attrs, cs, nl, depth);
    var alt, src := Attribute(attrs, "alt"), Attribute(attrs, "src");
    LinkRoundTrip(alt, src);
    assert ("![" + alt + "](" + src + ")")[1..] == "[" + alt + "](" + src + ")";
  }

  lemma FrameReadsBack(attrs: Attrs, cs: seq<Node>, nl: bool, depth: nat)
    requires Attribute(attrs, "src") != ""
    ensures
      var md := Md("iframe", attrs, cs, nl, depth);
      |md| > 10 && md[..9] == "[iframe: " && md[9..|md| - 1] == Attribute(attrs, "src") && md[|md| - 1] == ']'
  {
    hide Md;
    hide Attribute;
    Frames(attrs, cs, nl, depth);
  }

  // ---------------------------------------------------------------------------------------------
  // Children and quotations

  lemma EmittedText(t: string)
    ensures
      var s := W.Collapse(t, false);
      Erase(EmitText(t)) == if s == "" || s == " " then "" else s
  {
    EraseTag(W.Collapse(t, false), true);
  }

  /** Texts are written collapsed, unless nothing or a single space is left of them. */
  lemma TextChild(t: string, rest: seq<Node>, nl: bool, depth: nat)
    ensures
      var s := W.Collapse(t, false);
      var w := if s == "" || s == " " then "" else s;
      Inner([Text(t)] + rest, nl, depth) == w + Inner(rest, Ends(w, nl), depth)
  {
    var cs, gs := [Text(t)] + rest, EmitText(t);
    assert cs[0] == Text(t) && cs[1..] == rest;
    assert EmitChildren(cs, nl, depth) == gs + EmitChildren(rest, NlAfter(nl, gs), depth);
    EmittedText(t);
    hide EmitText;
    hide EmitChildren;
    EndsIs(gs, nl);
    EraseConcat(gs, EmitChildren(rest, NlAfter(nl, gs), depth));
  }

  /** Elements are written one after the other, and all else is passed by. */
  lemma ElementChild(el: Node, rest: seq<Node>, nl: bool, depth: nat)
    requires el.Element?
    ensures
      var md := Md(el.name, el.attrs, el.children, nl, depth);
      Inner([el] + rest, nl, depth) == md + Inner(rest, Ends(md, nl), depth)
  {
    var cs, gs := [el] + rest, Emit(el, nl, depth);
    assert cs[0] == el && cs[1..] == rest;
    assert EmitChildren(cs, nl, depth) == gs + EmitChildren(rest, NlAfter(nl, gs), depth);
    hide EmitChildren;
    hide Emit;
    MdIs(el, nl, depth);
    EndsIs(gs, nl);
    EraseConcat(gs, EmitChildren(rest, NlAfter(nl, gs), depth));
  }

  lemma OtherChild(n: Node, rest: seq<Node>, nl: bool, depth: nat)
    requires n.Fragment? || n.Other?
    ensures Inner([n] + rest, nl, depth) == Inner(rest, nl, depth)
    ensures Inner([], nl, depth) == ""
  {
    var cs := [n] + rest;
    assert Erase(EmitChildren([], nl, depth)) == "";
    assert cs[0] == n && cs[1..] == rest;
    assert EmitNode(n, nl, depth) == [];
    assert EmitChildren(cs, nl, depth) == [] + EmitChildren(rest, NlAfter(nl, []), depth);
    hide EmitChildren;
    assert [] + EmitChildren(rest, nl, depth) == EmitChildren(rest, nl, depth);
  }

  /** The text of some lines, each behind a quotation mark and ended. */
  function Quoted(lines: seq<string>): string {
    if lines == [] then "" else "> " + lines[0] + "\n" + Quoted(lines[1..])
  }

  /** `text` is the line `l`, its end, and `rest`. */
  ghost predicate IsCut(text: string, l: string, rest: string) {
    || text == l + "\r\n" + rest
    || (text == l + "\n" + rest && (l != "" ==> l[|l| - 1] != '\r'))
  }

  ghost predicate OnOneLine(l: string) {
    forall k :: 0 <= k < |l| ==> l[k] != '\n'
  }

  /** How a text falls into lines: each ended by a newline or a carriage return and a newline, but the
      last, which need not be ended if it is not empty. */
  ghost predicate FallsInto(text: string, lines: seq<string>)
    decreases |lines|
  {
    if lines == [] then text == ""
    else
      && OnOneLine(lines[0])
      && ((|lines| == 1 && text == lines[0] != "")
          || exists rest :: IsCut(text, lines[0], rest) && FallsInto(rest, lines[1..]))
  }

  lemma CutLine(text: string, i: nat) returns (line: string)
    requires i == NextNl(text) < |text|
    ensures line == text[..LineLength(text[..i])] && OnOneLine(line) && IsCut(text, line, text[i + 1..])
  {
    var n := LineLength(text[..i]);
    line := text[..n];
    hide NextNl;
    assert text == text[..i] + [text[i]] + text[i + 1..];
    if n < i {
      assert text[..i] == line + "\r";
      assert text == line + "\r\n" + text[i + 1..];
    } else {
      assert text == line + "\n" + text[i + 1..];
    }
  }

  lemma OneLine(gs: seq<Glyph>) returns (line: string, after: seq<Glyph>)
    requires gs != []
    ensures |after| < |gs| && |Lines(gs)| == |Lines(after)| + 1
    ensures Erase(Lines(gs)[0]) == line && Lines(gs)[1..] == Lines(after) && OnOneLine(line)
    ensures (after == [] && Erase(gs) == line != "") || IsCut(Erase(gs), line, Erase(after))
  {
    var text := Erase(gs);
    var i := NextNl(text);
    if i == |gs| {
      line, after := text, [];
      assert Lines(gs) == [gs] && Lines([]) == [];
    } else {
      line := CutLine(text, i);
      after := gs[i + 1..];
      EraseSlice(gs, 0, i);
      EraseSlice(gs, i + 1, |gs|);
      assert gs[0..i] == gs[..i];
      var n := LineLength(text[..i]);
      EraseSlice(gs, 0, n);
      assert gs[0..n] == gs[..n];
      assert Lines(gs) == [gs[..n]] + Lines(after);
    }
  }

  lemma LinesEnd(gs: seq<Glyph>)
    ensures gs == [] ==> Lines(gs) == []
  {
  }

  /** A quotation is what its inner buffer's lines are, each behind "> ". */
  lemma {:induction false} QuotedLines(gs: seq<Glyph>) returns (lines: seq<string>)
    ensures FallsInto(Erase(gs), lines) && Erase(Quote(Lines(gs))) == Quoted(lines)
    decreases |gs|
  {
    lines := [];
    if gs == [] {
    } else {
      var line, after := OneLine(gs);
      var rest := QuotedLines(after);
      lines := [line] + rest;
      assert lines[0] == line && lines[1..] == rest;
      var ls := Lines(gs);
      assert Quote(ls) == Markup("> ") + ls[0] + Markup("\n") + Quote(ls[1..]);
      LinesEnd(after);
      hide Lines;
      hide Quote;
      hide Markup;
      EraseConcat(Markup("> ") + ls[0] + Markup("\n"), Quote(ls[1..]));
      Between("> ", ls[0], "\n");
    }
  }

  lemma Quotations(attrs: Attrs, cs: seq<Node>, nl: bool, depth: nat) returns (lines: seq<string>)
    ensures FallsInto(Inner(cs, false, depth), lines)
    ensures Md("blockquote", attrs, cs, nl, depth) == Quoted(lines) + "\n"
  {
    var gs := EmitChildren(cs, false, depth);
    assert Md("blockquote", attrs, cs, nl, depth) == Erase(Quote(Lines(gs)) + Markup("\n")) by {
      assert KindOf("blockquote") == Blockquote;
      hide KindOf;
      hide EmitChildren;
    }
    assert Inner(cs, false, depth) == Erase(gs);
    hide *;
    lines := QuotedLines(gs);
    Between("", Quote(Lines(gs)), "\n");
  }

  // ---------------------------------------------------------------------------------------------
  // Finished documents

  lemma CleanupIsTrim(gs: seq<Glyph>)
    requires Squeeze(gs, 0) == gs
    ensures Erase(Cleanup(gs)) == T.Trim(Erase(gs))
  {
    EraseTrim(gs);
  }

  lemma NoTripleBehindLine(gs: seq<Glyph>, line: string)
    requires Erase(gs) == line + "\n\n" && OnOneLine(line) && line != ""
    ensures NoTripleNewline(gs)
  {
    var n := |line|;
    forall k | 0 <= k < |gs| ensures gs[k].c == if k < n then line[k] else '\n' {
      assert gs[k].c == Erase(gs)[k] == (line + "\n\n")[k];
    }
  }

  lemma TrimBehindLine(line: string)
    requires line != "" && line[0] !in L.WHITE && line[|line| - 1] !in L.WHITE
    ensures T.Trim(line + "\n\n") == line
  {
    assert "" + line + "\n\n" == line + "\n\n";
    L.WhiteCharacters('\n');
    hide *;
    L.TrimTakesWhite("", line, "\n\n");
  }

  /** A block of one line is left alone by the final cleanup, but for the newlines behind it. */
  lemma CleanedLine(gs: seq<Glyph>, line: string)
    requires Erase(gs) == line + "\n\n" && OnOneLine(line)
    requires line != "" && line[0] !in L.WHITE && line[|line| - 1] !in L.WHITE
    ensures Erase(Cleanup(gs)) == line
  {
    hide *;
    NoTripleBehindLine(gs, line);
    NoTripleMeansSqueezed(gs, 0);
    SqueezedIsFixed(gs, 0);
    CleanupIsTrim(gs);
    TrimBehindLine(line);
  }

  lemma SingleElement(el: Node)
    requires el.Element?
    ensures D.EmitDocument([el]) == Cleanup(Emit(el, false, 0))
  {
    var gs := Emit(el, false, 0);
    assert [el][1..] == [];
    assert EmitElements([el], false, 0) == gs + EmitElements([], NlAfter(false, gs), 0);
    assert gs + [] == gs;
  }

  /** A word: no whitespace of any kind in it. */
  ghost predicate IsPlainWord(w: string) {
    w != "" && forall k :: 0 <= k < |w| ==> w[k] !in L.WHITE
  }

  lemma WordChild(w: string, depth: nat)
    requires IsPlainWord(w)
    ensures Inner([Text(w)], false, depth) == w
  {
    L.OthersAreUnchanged(w);
    assert w != " ";
    hide *;
    TextChild(w, [], false, depth);
    OtherChild(Other, [], Ends(w, false), depth);
    assert [Text(w)] + [] == [Text(w)];
    assert w + "" == w;
  }

  lemma OneItem(li: Node)
    requires li.Element?
    ensures Elements([li]) == [li] && Digits(1) + ". " == "1. "
  {
    assert [li][1..] == [];
    assert Digits(1) == "1";
  }

  lemma OneBlock(blocks: seq<string>, mark: string, w: string)
    requires |blocks| == 1 && blocks[0] == Item(0, mark, w)
    ensures Flat(blocks) + "\n" == mark + w + "\n\n"
  {
    assert Spaces(0) == "";
    assert blocks[1..] == [];
  }

  lemma WordLine(mark: string, w: string)
    requires IsPlainWord(w) && mark in {"- ", "1. "}
    ensures var line := mark + w;
      OnOneLine(line) && line != "" && line[0] !in L.WHITE && line[|line| - 1] !in L.WHITE
  {
    var line := mark + w;
    forall k | 0 <= k < |line| ensures line[k] != '\n' {
      if k >= |mark| { assert line[k] == w[k - |mark|]; }
    }
    assert line[|line| - 1] == w[|w| - 1];
  }

  /** A list of one word, from the tree to the finished Markdown: "- w" for `ul`, "1. w" for `ol`. */
  lemma ListDocuments(attrs: Attrs, w: string)
    requires IsPlainWord(w)
    ensures
      var items := [Element("li", attrs, [Text(w)])];
      && Erase(D.EmitDocument([Element("ul", attrs, items)])) == "- " + w
      && Erase(D.EmitDocument([Element("ol", attrs, items)])) == "1. " + w
  {
    var li := Element("li", attrs, [Text(w)]);
    OneItem(li);
    WordChild(w, 1);
    WordLine("- ", w);
    WordLine("1. ", w);
    hide *;
    var bullets := UnorderedLists(attrs, [li], false, 0);
    var numbers := OrderedLists(attrs, [li], false, 0);
    OneBlock(bullets, "- ", w);
    OneBlock(numbers, "1. ", w);
    assert "- " == "- ";
    SingleElement(Element("ul", attrs, [li]));
    SingleElement(Element("ol", attrs, [li]));
    MdIs(Element("ul", attrs, [li]), false, 0);
    MdIs(Element("ol", attrs, [li]), false, 0);
    CleanedLine(Emit(Element("ul", attrs, [li]), false, 0), "- " + w);
    CleanedLine(Emit(Element("ol", attrs, [li]), false, 0), "1. " + w);
  }
}
