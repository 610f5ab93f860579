/** `cleanup_md` and `dom_to_markdown_doc`, and the proof that the text of the document comes through
    them whole. */
module DomToMarkdown {
  import opened Dom
  import opened Glyphs
  import opened Sequences
  import opened Utf8
  import opened Wrappers
  import opened VectorKernels
  import opened Markdown
  import T = Text
  import Whitespace

  // ---------------------------------------------------------------------------------------------
  // cleanup_md

  /** The loop stands at byte `i` with `left` to come and `run` newlines just behind it; what it
      still owes completes `goal`. */
  ghost predicate Pending(bytes: seq<byte>, i: nat, left: seq<Glyph>, out: seq<byte>, run: nat, goal: seq<byte>) {
    && i <= |bytes|
    && bytes[i..] == Encode(Erase(left))
    && out + Encode(Erase(Squeeze(left, run))) == goal
  }

  lemma SqueezeStep(left: seq<Glyph>, run: nat)
    requires left != []
    ensures Erase(left)[1..] == Erase(left[1..])
    ensures
      var nl := left[0].c == '\n';
      Encode(Erase(Squeeze(left, run))) ==
        (if nl && run >= 2 then [] else EncodeChar(left[0].c))
        + Encode(Erase(Squeeze(left[1..], if nl then run + 1 else 0)))
  {
    var nl := left[0].c == '\n';
    var tail := Squeeze(left[1..], if nl then run + 1 else 0);
    if nl && run >= 2 {
      assert Squeeze(left, run) == [] + tail == tail;
      assert [] + Encode(Erase(tail)) == Encode(Erase(tail));
    } else {
      assert Squeeze(left, run) == [left[0]] + tail;
      EraseConcat([left[0]], tail);
      assert Erase([left[0]]) == [left[0].c];
      EncodeConcat([left[0].c], Erase(tail));
      EncodeSingle(left[0].c);
    }
  }

  lemma {:induction false} CleanupTurn(bytes: seq<byte>, i: nat, left: seq<Glyph>, out: seq<byte>, run: nat,
                                       goal: seq<byte>)
    requires Pending(bytes, i, left, out, run, goal) && i < |bytes|
    ensures left != []
    ensures
      var b, e := bytes[i], Min(i + SeqLen(bytes[i]), |bytes|);
      if b == 0x0A then Pending(bytes, i + 1, left[1..], if run < 2 then out + [b] else out, run + 1, goal)
      else if b < 0x80 then Pending(bytes, i + 1, left[1..], out + [b], 0, goal)
      else CanSlice(bytes, i, e) && Pending(bytes, e, left[1..], out + bytes[i..e], 0, goal)
  {
    hide Encode;
    hide Squeeze;
    AtCharacter(bytes, i, Erase(left));
    var n := SeqLen(bytes[i]);
    SqueezeStep(left, run);
    AtCharacter(bytes, i + n, Erase(left[1..]));
    var nl := left[0].c == '\n';
    var w := if nl && run >= 2 then [] else EncodeChar(left[0].c);
    Regroup(out, w, Encode(Erase(Squeeze(left[1..], if nl then run + 1 else 0))));
    assert Pending(bytes, i + n, left[1..], out + w, if nl then run + 1 else 0, goal);
    assert nl <==> bytes[i] == 0x0A;
    if nl && run >= 2 {
      assert out + [] == out;
    } else {
      assert w == bytes[i..i + n];
      if bytes[i] < 0x80 { assert bytes[i..i + 1] == [bytes[i]]; }
    }
  }

  lemma NothingPending(bytes: seq<byte>, left: seq<Glyph>, out: seq<byte>, run: nat, goal: seq<byte>)
    requires Pending(bytes, |bytes|, left, out, run, goal)
    ensures out == goal
  {
    assert left == [];
    assert Erase([]) == [] && out + [] == out;
  }

  /** The byte loop. */
  method SqueezeNewlines(md: string, ghost gs: seq<Glyph>) returns (out: seq<byte>)
    requires md == Erase(gs)
    ensures out == Encode(Erase(Squeeze(gs, 0)))
  {
    var bytes := Encode(md);
    ghost var goal, left := Encode(Erase(Squeeze(gs, 0))), gs;
    out := [];
    var consecutiveNl, i := 0, 0;
    assert bytes[0..] == bytes && [] + goal == goal;
    assert Pending(bytes, i, left, out, consecutiveNl, goal);
    hide Pending;
    hide Encode;
    hide Squeeze;
    while i < |bytes|
      invariant 0 <= i <= |bytes| && Pending(bytes, i, left, out, consecutiveNl, goal)
    {
      CleanupTurn(bytes, i, left, out, consecutiveNl, goal);
      if bytes[i] == 0x0A {
        consecutiveNl := consecutiveNl + 1;
        if consecutiveNl <= 2 {
          out := out + [0x0A];
        }
        i := i + 1;
      } else {
        consecutiveNl := 0;
        if bytes[i] < 0x80 {
          out := out + [bytes[i]];
          i := i + 1;
        } else {
          var end := Min(i + SeqLen(bytes[i]), |bytes|);
          out := out + Slice(bytes, i, end);
          i := end;
        }
      }
      left := left[1..];
    }
    NothingPending(bytes, left, out, consecutiveNl, goal);
  }

  method CleanupMd(md: Buffer, ghost gs: seq<Glyph>)
    requires md.text == Erase(gs)
    modifies md
    ensures md.text == Erase(Cleanup(gs))
  {
    EraseTrim(Squeeze(gs, 0));
    if |Encode(md.text)| == 0 {
      assert gs == [];
      return;
    }
    var out := SqueezeNewlines(md.text, gs);
    DecodeEncode(Erase(Squeeze(gs, 0)));
    md.text := T.Trim(Decode(out).value);
  }

  // ---------------------------------------------------------------------------------------------
  // The whole conversion

  /** What is written for a document, before and after cleaning. */
  ghost function EmitDocument(doc: seq<Node>): seq<Glyph> {
    Cleanup(EmitElements(doc, false, 0))
  }

  /** The result of a conversion that collapses `texts` and otherwise writes `gs`. */
  ghost function Conversion(kernel: Kernel, texts: set<string>, gs: seq<Glyph>): Outcome<string> {
    if Trips(kernel, texts) then Panicked else Returned(Erase(gs))
  }

  ghost function DocumentMarkdown(kernel: Kernel, doc: seq<Node>): Outcome<string> {
    Conversion(kernel, CollapsedInElements(doc), EmitDocument(doc))
  }

  /** `main` is the first main element of the document, if there is one. */
  ghost function MainMarkdown(kernel: Kernel, doc: seq<Node>, main: Option<ElementRef>): Outcome<string> {
    match main
    case None => DocumentMarkdown(kernel, doc)
    case Some(el) => Conversion(kernel, Collapsed(el), Cleanup(Emit(el, false, 0)))
  }

  lemma NothingWritten(gs: seq<Glyph>, after: string)
    requires Appends("", gs, after)
    ensures after == Erase(gs)
  {
    assert "" + Erase(gs) == Erase(gs);
  }

  /** `dom_to_markdown_doc`: `doc` are the children of the root. It panics exactly if the kernel of the
      target does on one of the texts that are collapsed. */
  method DomToMarkdownDoc(kernel: Kernel, doc: seq<Node>) returns (r: Outcome<string>)
    ensures r == DocumentMarkdown(kernel, doc)
  {
    hide Trips;
    hide Appends;
    var buffer := new Buffer();
    var depth := new Counter();
    var panicked;
    ghost var gs;
    panicked, gs := PushElements(kernel, Element("", map[], doc), buffer, depth);
    if panicked {
      return Panicked;
    }
    NothingWritten(gs, buffer.text);
    CleanupMd(buffer, gs);
    r := Returned(buffer.text);
  }

  /** `main_to_markdown_doc`. */
  method MainToMarkdownDoc(kernel: Kernel, doc: seq<Node>, main: Option<ElementRef>) returns (r: Outcome<string>)
    ensures r == MainMarkdown(kernel, doc, main)
  {
    hide Trips;
    hide Appends;
    if main.None? {
      r := DomToMarkdownDoc(kernel, doc);
    } else {
      var buffer := new Buffer();
      var depth := new Counter();
      var panicked := WalkElement(kernel, main.value, buffer, depth);
      if panicked {
        return Panicked;
      }
      ghost var gs := Emit(main.value, false, 0);
      NothingWritten(gs, buffer.text);
      CleanupMd(buffer, gs);
      r := Returned(buffer.text);
    }
  }

  // ---------------------------------------------------------------------------------------------
  // Which texts are shown

  /** The text nodes whose text reaches the Markdown, in document order. */
  function Shown(el: Node): seq<string>
    requires el.Element?
    decreases el, 1
  {
    match KindOf(el.name)
    case Break => []
    case Rule => []
    case Image => []
    case Frame => []
    case Skipped => []
    case Preformatted => AllTexts(el.children)
    case CodeSpan => DirectTexts(el.children)
    case UnorderedList => ShownInElements(el.children)
    case OrderedList => ShownInItems(el.children)
    case _ => ShownInChildren(el.children)
  }

  function ShownAt(n: Node): seq<string>
    decreases n, 2
  {
    match n
    case Element(_, _, _) => Shown(n)
    case Fragment(_) => []
    case Text(t) => [t]
    case Other => []
  }

  function ShownInChildren(cs: seq<Node>): seq<string>
    decreases cs, 0
  {
    if cs == [] then [] else ShownAt(cs[0]) + ShownInChildren(cs[1..])
  }

  function ShownInElements(cs: seq<Node>): seq<string>
    decreases cs, 0
  {
    if cs == [] then [] else (if cs[0].Element? then Shown(cs[0]) else []) + ShownInElements(cs[1..])
  }

  /** `ol` looks through its element children without regard to their names. */
  function ShownInItems(cs: seq<Node>): seq<string>
    decreases cs, 0
  {
    if cs == [] then []
    else (if cs[0].Element? then ShownInChildren(cs[0].children) else []) + ShownInItems(cs[1..])
  }

  /** The non-whitespace characters of a list of texts. */
  function Letters(ts: seq<string>): seq<char> {
    if ts == [] then [] else T.NonWhite(ts[0]) + Letters(ts[1..])
  }

  lemma {:induction false} LettersConcat(a: seq<string>, b: seq<string>)
    ensures Letters(a + b) == Letters(a) + Letters(b)
  {
    if a == [] {
      assert a + b == b;
    } else {
      LettersConcat(a[1..], b);
      assert (a + b)[1..] == a[1..] + b;
      Regroup(T.NonWhite(a[0]), Letters(a[1..]), Letters(b));
    }
  }

  // ---------------------------------------------------------------------------------------------
  // Conservation

  lemma ContentAround(a: string, gs: seq<Glyph>, b: string)
    ensures Content(Markup(a) + gs + Markup(b)) == Content(gs)
  {
    ContentConcat(Markup(a) + gs, Markup(b));
    ContentConcat(Markup(a), gs);
    ContentOfMarkup(a);
    ContentOfMarkup(b);
  }

  lemma ContentAfter(gs: seq<Glyph>, b: string)
    ensures Content(gs + Markup(b)) == Content(gs)
  {
    ContentConcat(gs, Markup(b));
    ContentOfMarkup(b);
  }

  lemma ContentBehind(a: string, gs: seq<Glyph>)
    ensures Content(Markup(a) + gs) == Content(gs)
  {
    ContentConcat(Markup(a), gs);
    ContentOfMarkup(a);
  }

  lemma ContentOfText(t: string)
    ensures Content(EmitText(t)) == T.NonWhite(t)
  {
    var s := Whitespace.Collapse(t, false);
    T.CollapseKeepsNonWhite(t, false);
    ContentOfInk(s);
    if s == "" || s == " " { T.NonWhiteOfWhite(s); }
  }

  lemma LineBreaksAreWhite()
    ensures T.IsWhite('\n') && T.IsWhite('\r')
  {
  }

  /** What `lines` cuts off with the first line: nothing, a newline, or a carriage return and one. */
  lemma FirstLine(gs: seq<Glyph>) returns (line: seq<Glyph>, cut: seq<Glyph>, after: seq<Glyph>)
    requires gs != []
    ensures gs == line + cut + after && |after| < |gs|
    ensures Lines(gs) == [line] + Lines(after)
    ensures forall k :: 0 <= k < |cut| ==> T.IsWhite(cut[k].c)
    ensures forall k :: 0 <= k < |line| ==> line[k].c != '\n'
  {
    hide T.IsWhite;
    var i := NextNl(Erase(gs));
    if i == |gs| {
      line, cut, after := gs, [], [];
      assert Lines(gs) == [gs] + Lines([]);
      assert gs == gs + [] + [];
    } else {
      var n := LineLength(Erase(gs[..i]));
      line, cut, after := gs[..n], gs[n..i + 1], gs[i + 1..];
      assert gs == line + cut + after;
      LineBreaksAreWhite();
      if n < i {
        assert Erase(gs[..i])[n] == '\r';
        assert cut == [gs[n], gs[i]];
      } else {
        assert cut == [gs[i]];
      }
    }
    forall k | 0 <= k < |line| ensures line[k].c != '\n' {
      assert line[k].c == Erase(gs)[k];
    }
  }

  /** Cutting into lines loses newlines and carriage returns only; quoting adds markup only. */
  lemma {:induction false} QuoteKeepsContent(gs: seq<Glyph>)
    ensures Content(Quote(Lines(gs))) == Content(gs)
    decreases |gs|
  {
    if gs == [] {
    } else {
      var line, cut, after := FirstLine(gs);
      QuoteKeepsContent(after);
      hide *;
      QuoteCons(line, Lines(after));
      ContentConcat(Markup("> ") + line + Markup("\n"), Quote(Lines(after)));
      ContentAround("> ", line, "\n");
      ContentOfWhite(cut);
      ContentConcat(line + cut, after);
      ContentConcat(line, cut);
      assert Content(line) + [] == Content(line);
    }
  }

  lemma NoContent()
    ensures Content([]) == [] && Letters([]) == []
  {
  }

  lemma LettersOfOne(t: string)
    ensures Letters([t]) == T.NonWhite(t)
  {
    assert Letters([t][1..]) == [];
  }

  lemma {:induction false} TrimmedContent(cs: seq<Node>)
    ensures Content(EmitTrimmed(cs)) == Letters(DirectTexts(cs))
  {
    if cs == [] {
    } else {
      TrimmedContent(cs[1..]);
      hide Content;
      NoContent();
      var t := if cs[0].Text? then cs[0].text else "";
      T.TrimKeepsNonWhite(t);
      ContentOfInk(T.Trim(t));
      var first := if cs[0].Text? then Ink(T.Trim(t)) else [];
      ContentConcat(first, EmitTrimmed(cs[1..]));
      LettersConcat(if cs[0].Text? then [t] else [], DirectTexts(cs[1..]));
      LettersOfOne(t);
    }
  }

  lemma {:induction false} VerbatimContent(ts: seq<string>)
    ensures Content(EmitVerbatim(ts)) == Letters(ts)
  {
    if ts == [] {
    } else {
      VerbatimContent(ts[1..]);
      ContentOfInk(ts[0]);
      ContentConcat(Ink(ts[0]), EmitVerbatim(ts[1..]));
    }
  }

  lemma PreContent(ts: seq<string>)
    ensures Content(EmitPre(ts)) == Letters(ts)
  {
    VerbatimContent(ts);
    ContentAround("```\n", EmitVerbatim(ts), "```\n\n");
    ContentAround("```\n", EmitVerbatim(ts), "\n```\n\n");
  }

  /** `pre`, `code` and `kbd`. */
  lemma VerbatimElementContent(el: Node, nl: bool, depth: nat)
    requires el.Element? && KindOf(el.name) in {Preformatted, CodeSpan}
    ensures Content(Emit(el, nl, depth)) == Letters(Shown(el))
  {
    hide KindOf;
    hide Content;
    hide Letters;
    if KindOf(el.name) == Preformatted {
      PreContent(AllTexts(el.children));
    } else {
      TrimmedContent(el.children);
      ContentAround("`", EmitTrimmed(el.children), "`");
    }
  }

  lemma CloseBlockContent(gs: seq<Glyph>, nl: bool)
    ensures Content(CloseBlock(gs, nl)) == Content(gs)
  {
    ContentAfter(gs, if NlAfter(nl, gs) then "\n" else "\n\n");
  }

  lemma ListContent(el: Node, nl: bool, depth: nat)
    requires el.Element? && KindOf(el.name) in {UnorderedList, OrderedList}
    requires KindOf(el.name) == UnorderedList ==>
      Content(EmitElements(el.children, nl, depth + 1)) == Letters(ShownInElements(el.children))
    requires KindOf(el.name) == OrderedList ==>
      Content(EmitItems(el.children, depth + 1, 1)) == Letters(ShownInItems(el.children))
    ensures Content(Emit(el, nl, depth)) == Letters(Shown(el))
  {
    hide KindOf;
    hide Content;
    hide Letters;
    hide EmitElements;
    hide EmitItems;
    hide CloseBlock;
    CloseBlockContent(EmitElements(el.children, nl, depth + 1), nl);
    ContentAfter(EmitItems(el.children, depth + 1, 1), "\n");
  }

  /** The elements that write no text. */
  lemma LeafContent(el: Node, nl: bool, depth: nat)
    requires el.Element?
    requires KindOf(el.name) in {Break, Rule, Image, Skipped, Frame}
    ensures Content(Emit(el, nl, depth)) == [] == Letters(Shown(el))
  {
    hide KindOf;
    hide Markup;
    ContentOfMarkup("\n");
    ContentOfMarkup("---\n\n");
    ContentOfMarkup("![" + Attr(el.attrs, "alt") + "](" + Attr(el.attrs, "src") + ")");
    ContentOfMarkup("[iframe: " + Attr(el.attrs, "src") + "]");
  }

  /** The elements that write all their children and markup around them. */
  lemma FlowContent(el: Node, nl: bool, depth: nat)
    requires el.Element?
    requires KindOf(el.name) !in {Break, Rule, Image, Skipped, Frame}
    requires KindOf(el.name) !in {Preformatted, CodeSpan, UnorderedList, OrderedList}
    requires Content(EmitChildren(el.children, false, depth)) == Letters(ShownInChildren(el.children))
    requires Content(EmitChildren(el.children, nl, depth)) == Letters(ShownInChildren(el.children))
    ensures Content(Emit(el, nl, depth)) == Letters(Shown(el))
  {
    hide KindOf;
    hide Content;
    hide Letters;
    hide EmitChildren;
    hide ShownInChildren;
    hide CloseBlock;
    hide Quote;
    hide Repeat;
    hide Markup;
    var inner, flow := EmitChildren(el.children, false, depth), EmitChildren(el.children, nl, depth);
    match KindOf(el.name) {
      case Heading(level) =>
        ContentBehind(Repeat("#", level) + " ", inner);
        CloseBlockContent(Markup(Repeat("#", level) + " ") + inner, nl);
      case Paragraph => CloseBlockContent(flow, nl);
      case Blockquote =>
        QuoteKeepsContent(inner);
        ContentAfter(Quote(Lines(inner)), "\n");
      case ListItem => ContentAround(Repeat("  ", if depth == 0 then 0 else depth - 1) + "- ", inner, "\n");
      case Anchor => ContentAround("[", inner, "](" + Attr(el.attrs, "href") + ")");
      case Wrapped(open, close) => ContentAround(open, inner, close);
      case Cell => ContentAfter(flow, " ");
      case Line => ContentAfter(flow, "\n");
      case Plain =>
    }
  }

  /** Text node by text node, `Emit` writes the content of `Shown` and no other. */
  lemma {:induction false} EmitContent(el: Node, nl: bool, depth: nat)
    requires el.Element?
    ensures Content(Emit(el, nl, depth)) == Letters(Shown(el))
    decreases el, 1
  {
    hide *;
    var cs := el.children;
    match KindOf(el.name) {
      case Break => LeafContent(el, nl, depth);
      case Rule => LeafContent(el, nl, depth);
      case Image => LeafContent(el, nl, depth);
      case Skipped => LeafContent(el, nl, depth);
      case Frame => LeafContent(el, nl, depth);
      case Preformatted => VerbatimElementContent(el, nl, depth);
      case CodeSpan => VerbatimElementContent(el, nl, depth);
      case UnorderedList =>
        ElementsContent(cs, nl, depth + 1);
        ListContent(el, nl, depth);
      case OrderedList =>
        ItemsContent(cs, depth + 1, 1);
        ListContent(el, nl, depth);
      case _ =>
        ChildrenContent(cs, false, depth);
        ChildrenContent(cs, nl, depth);
        FlowContent(el, nl, depth);
    }
  }

  lemma {:induction false} ChildrenContent(cs: seq<Node>, nl: bool, depth: nat)
    ensures Content(EmitChildren(cs, nl, depth)) == Letters(ShownInChildren(cs))
    decreases cs, 0
  {
    if cs == [] {
    } else {
      var first := EmitNode(cs[0], nl, depth);
      var nl' := NlAfter(nl, first);
      ChildrenContent(cs[1..], nl', depth);
      match cs[0] {
        case Element(_, _, _) => EmitContent(cs[0], nl, depth);
        case Text(t) =>
          ContentOfText(t);
          LettersOfOne(t);
        case Fragment(_) =>
        case Other =>
      }
      hide Content;
      hide Letters;
      hide Emit;
      hide Shown;
      hide EmitText;
      NoContent();
      ContentConcat(first, EmitChildren(cs[1..], nl', depth));
      LettersConcat(ShownAt(cs[0]), ShownInChildren(cs[1..]));
    }
  }

  lemma {:induction false} ElementsContent(cs: seq<Node>, nl: bool, depth: nat)
    ensures Content(EmitElements(cs, nl, depth)) == Letters(ShownInElements(cs))
    decreases cs, 0
  {
    if cs == [] {
    } else {
      var first := if cs[0].Element? then Emit(cs[0], nl, depth) else [];
      if cs[0].Element? { EmitContent(cs[0], nl, depth); }
      ElementsContent(cs[1..], NlAfter(nl, first), depth);
      hide Content;
      hide Letters;
      hide Emit;
      hide Shown;
      NoContent();
      ContentConcat(first, EmitElements(cs[1..], NlAfter(nl, first), depth));
      LettersConcat(if cs[0].Element? then Shown(cs[0]) else [], ShownInElements(cs[1..]));
    }
  }

  lemma {:induction false} ItemsContent(cs: seq<Node>, depth: nat, idx: nat)
    ensures Content(EmitItems(cs, depth, idx)) == Letters(ShownInItems(cs))
    decreases cs, 0
  {
    if cs == [] {
    } else {
      if !cs[0].Element? {
        ItemsContent(cs[1..], depth, idx);
        assert ShownInItems(cs) == [] + ShownInItems(cs[1..]) == ShownInItems(cs[1..]);
      } else {
        var li := cs[0];
        ChildrenContent(li.children, false, depth);
        ItemsContent(cs[1..], depth, idx + 1);
        hide Content;
        hide Letters;
        hide EmitChildren;
        hide ShownInChildren;
        ContentAround(Repeat("  ", if depth == 0 then 0 else depth - 1) + Digits(idx) + ". ",
                      EmitChildren(li.children, false, depth), "\n");
        ContentConcat(EmitItem(li, depth, idx), EmitItems(cs[1..], depth, idx + 1));
        LettersConcat(ShownInChildren(li.children), ShownInItems(cs[1..]));
      }
    }
  }

  /** Content conservation: among the characters of the final Markdown, the non-whitespace ones that
      came from text nodes are exactly the non-whitespace characters of the shown text nodes, in
      document order and each once. */
  lemma {:induction false} ContentIsConserved(doc: seq<Node>)
    ensures Content(EmitDocument(doc)) == Letters(ShownInElements(doc))
  {
    ElementsContent(doc, false, 0);
    CleanupKeepsContent(EmitElements(doc, false, 0));
  }

  /** The same for a main element alone. */
  lemma {:induction false} MainContentIsConserved(main: ElementRef)
    ensures Content(Cleanup(Emit(main, false, 0))) == Letters(Shown(main))
  {
    EmitContent(main, false, 0);
    CleanupKeepsContent(Emit(main, false, 0));
  }

  /** The finished Markdown has no run of three newlines and no outer whitespace, and another cleanup
      would not change it. */
  lemma DocumentIsClean(doc: seq<Node>)
    ensures NoTripleNewline(EmitDocument(doc)) && T.Trimmed(Erase(EmitDocument(doc)))
    ensures Cleanup(EmitDocument(doc)) == EmitDocument(doc)
  {
    CleanupMeaning(EmitElements(doc, false, 0));
  }

  // ---------------------------------------------------------------------------------------------
  // Blockquotes

  /** Reads a quotation back: cut at newlines, drop the first two characters of each line. */
  ghost function Unquote(gs: seq<Glyph>): seq<seq<Glyph>>
    decreases |gs|
  {
    var i := NextNl(Erase(gs));
    if i < 2 || i == |gs| then [] else [gs[2..i]] + Unquote(gs[i + 1..])
  }

  ghost predicate WithoutNewlines(ls: seq<seq<Glyph>>) {
    forall l: seq<Glyph>, k :: l in ls && 0 <= k < |l| ==> l[k].c != '\n'
  }

  lemma {:induction false} NextNlIs(cs: string, n: nat)
    requires n < |cs| && cs[n] == '\n' && forall k :: 0 <= k < n ==> cs[k] != '\n'
    ensures NextNl(cs) == n
  {
    if n == 0 {
    } else {
      NextNlIs(cs[1..], n - 1);
    }
  }

  lemma UnquoteFirst(l: seq<Glyph>, rest: seq<Glyph>)
    requires forall k :: 0 <= k < |l| ==> l[k].c != '\n'
    ensures Unquote(Markup("> ") + l + Markup("\n") + rest) == [l] + Unquote(rest)
  {
    var gs := Markup("> ") + l + Markup("\n") + rest;
    var n := |l| + 2;
    assert gs[n].c == '\n';
    forall k | 0 <= k < n ensures Erase(gs)[k] != '\n' {
      if k >= 2 { assert gs[k] == l[k - 2]; }
    }
    NextNlIs(Erase(gs), n);
    hide NextNl;
    assert gs[2..n] == l;
    assert gs[n + 1..] == rest;
  }

  lemma {:induction false} UnquoteQuote(ls: seq<seq<Glyph>>)
    requires WithoutNewlines(ls)
    ensures Unquote(Quote(ls) + Markup("\n")) == ls
  {
    if ls == [] {
      NothingBefore(Markup("\n"));
      NextNlIs(Erase(Markup("\n")), 0);
    } else {
      var l, rest := ls[0], Quote(ls[1..]);
      UnquoteQuote(ls[1..]);
      UnquoteFirst(l, rest + Markup("\n"));
      Regroup(Markup("> ") + l + Markup("\n"), rest, Markup("\n"));
    }
  }

  lemma {:induction false} LinesHaveNoNewlines(gs: seq<Glyph>)
    ensures WithoutNewlines(Lines(gs))
    decreases |gs|
  {
    if gs == [] {
    } else {
      var line, cut, after := FirstLine(gs);
      LinesHaveNoNewlines(after);
    }
  }

  /** Stripping the quotation marks from what a blockquote writes gives back the lines of its inner
      buffer. */
  lemma BlockquoteRoundTrip(el: Node, nl: bool, depth: nat)
    requires el.Element? && KindOf(el.name) == Blockquote
    ensures Unquote(Emit(el, nl, depth)) == Lines(EmitChildren(el.children, false, depth))
  {
    var body := EmitChildren(el.children, false, depth);
    assert Emit(el, nl, depth) == Quote(Lines(body)) + Markup("\n");
    hide *;
    LinesHaveNoNewlines(body);
    UnquoteQuote(Lines(body));
  }
}
