/** How much the buffer a walker writes into can influence what it writes. */
module ContextIndependence {
  import opened Dom
  import opened Glyphs
  import opened Markdown

  lemma {:induction false} OnlyNewlines(gs: seq<Glyph>)
    requires forall k :: 0 <= k < |gs| ==> gs[k].c == '\n'
    ensures NonNewline(gs) == []
  {
    if gs == [] {
    } else {
      OnlyNewlines(gs[1..]);
    }
  }

  lemma CloseBlockNonNewline(gs: seq<Glyph>, nl: bool)
    ensures NonNewline(CloseBlock(gs, nl)) == NonNewline(gs)
  {
    var newlines := Markup(if NlAfter(nl, gs) then "\n" else "\n\n");
    OnlyNewlines(newlines);
    NonNewlineConcat(gs, newlines);
  }

  lemma HeadingInContext(el: Node, a: bool, b: bool, depth: nat)
    requires el.Element? && KindOf(el.name).Heading?
    ensures NonNewline(Emit(el, a, depth)) == NonNewline(Emit(el, b, depth))
  {
    hide KindOf;
    hide CloseBlock;
    hide NonNewline;
    var gs := Markup(Repeat("#", KindOf(el.name).level) + " ") + EmitChildren(el.children, false, depth);
    CloseBlockNonNewline(gs, a);
    CloseBlockNonNewline(gs, b);
  }

  /** The elements that hand their own context on to their children. */
  lemma FlowInContext(el: Node, a: bool, b: bool, depth: nat)
    requires el.Element? && KindOf(el.name) in {Paragraph, UnorderedList, Cell, Line, Plain}
    requires KindOf(el.name) == UnorderedList ==>
      NonNewline(EmitElements(el.children, a, depth + 1)) == NonNewline(EmitElements(el.children, b, depth + 1))
    requires KindOf(el.name) != UnorderedList ==>
      NonNewline(EmitChildren(el.children, a, depth)) == NonNewline(EmitChildren(el.children, b, depth))
    ensures NonNewline(Emit(el, a, depth)) == NonNewline(Emit(el, b, depth))
  {
    hide KindOf;
    hide CloseBlock;
    hide NonNewline;
    hide EmitChildren;
    hide EmitElements;
    hide Markup;
    var forA, forB := EmitChildren(el.children, a, depth), EmitChildren(el.children, b, depth);
    match KindOf(el.name) {
      case Paragraph =>
        CloseBlockNonNewline(forA, a);
        CloseBlockNonNewline(forB, b);
      case UnorderedList =>
        CloseBlockNonNewline(EmitElements(el.children, a, depth + 1), a);
        CloseBlockNonNewline(EmitElements(el.children, b, depth + 1), b);
      case Cell =>
        NonNewlineConcat(forA, Markup(" "));
        NonNewlineConcat(forB, Markup(" "));
      case Line =>
        NonNewlineConcat(forA, Markup("\n"));
        NonNewlineConcat(forB, Markup("\n"));
      case Plain =>
    }
  }

  /** The elements that do not look at the buffer at all. */
  lemma ClosedToContext(el: Node, a: bool, b: bool, depth: nat)
    requires el.Element? && KindOf(el.name) !in {Paragraph, UnorderedList, Cell, Line, Plain}
    requires !KindOf(el.name).Heading?
    ensures Emit(el, a, depth) == Emit(el, b, depth)
  {
    hide KindOf;
  }

  /** An element writes the same into any buffer, newlines aside. */
  lemma {:induction false} ElementInContext(el: Node, a: bool, b: bool, depth: nat)
    requires el.Element?
    ensures NonNewline(Emit(el, a, depth)) == NonNewline(Emit(el, b, depth))
    decreases el, 1
  {
    var cs := el.children;
    hide *;
    match KindOf(el.name) {
      case Heading(_) => HeadingInContext(el, a, b, depth);
      case Paragraph =>
        ChildrenInContext(cs, a, b, depth);
        FlowInContext(el, a, b, depth);
      case UnorderedList =>
        ElementsInContext(cs, a, b, depth + 1);
        FlowInContext(el, a, b, depth);
      case Cell =>
        ChildrenInContext(cs, a, b, depth);
        FlowInContext(el, a, b, depth);
      case Line =>
        ChildrenInContext(cs, a, b, depth);
        FlowInContext(el, a, b, depth);
      case Plain =>
        ChildrenInContext(cs, a, b, depth);
        FlowInContext(el, a, b, depth);
      case _ => ClosedToContext(el, a, b, depth);
    }
  }

  lemma {:induction false} ChildrenInContext(cs: seq<Node>, a: bool, b: bool, depth: nat)
    ensures NonNewline(EmitChildren(cs, a, depth)) == NonNewline(EmitChildren(cs, b, depth))
    decreases cs, 0
  {
    if cs == [] {
    } else {
      var forA, forB := EmitNode(cs[0], a, depth), EmitNode(cs[0], b, depth);
      var a', b' := NlAfter(a, forA), NlAfter(b, forB);
      if cs[0].Element? { ElementInContext(cs[0], a, b, depth); }
      ChildrenInContext(cs[1..], a', b', depth);
      assert NonNewline(forA) == NonNewline(forB);
      assert EmitChildren(cs, a, depth) == forA + EmitChildren(cs[1..], a', depth);
      assert EmitChildren(cs, b, depth) == forB + EmitChildren(cs[1..], b', depth);
      hide *;
      NonNewlineConcat(forA, EmitChildren(cs[1..], a', depth));
      NonNewlineConcat(forB, EmitChildren(cs[1..], b', depth));
    }
  }

  lemma {:induction false} ElementsInContext(cs: seq<Node>, a: bool, b: bool, depth: nat)
    ensures NonNewline(EmitElements(cs, a, depth)) == NonNewline(EmitElements(cs, b, depth))
    decreases cs, 0
  {
    if cs == [] {
    } else {
      var forA, forB :=
        if cs[0].Element? then Emit(cs[0], a, depth) else [], if cs[0].Element? then Emit(cs[0], b, depth) else [];
      var a', b' := NlAfter(a, forA), NlAfter(b, forB);
      if cs[0].Element? { ElementInContext(cs[0], a, b, depth); }
      ElementsInContext(cs[1..], a', b', depth);
      assert NonNewline(forA) == NonNewline(forB);
      assert EmitElements(cs, a, depth) == forA + EmitElements(cs[1..], a', depth);
      assert EmitElements(cs, b, depth) == forB + EmitElements(cs[1..], b', depth);
      hide *;
      NonNewlineConcat(forA, EmitElements(cs[1..], a', depth));
      NonNewlineConcat(forB, EmitElements(cs[1..], b', depth));
    }
  }
}
