/** Text nodes told apart by their place in the document. Both walkers ask of a text only that it is
    one, so what they show can be followed by numbering the texts. */
module TextPositions {
  import opened Dom
  import opened DomToMarkdown
  import opened PlainText

  function Map<X, Y>(f: X -> Y, xs: seq<X>): (ys: seq<Y>)
    ensures |ys| == |xs| && forall k :: 0 <= k < |xs| ==> ys[k] == f(xs[k])
  {
    if xs == [] then [] else [f(xs[0])] + Map(f, xs[1..])
  }

  lemma {:induction false} MapConcat<X, Y>(f: X -> Y, a: seq<X>, b: seq<X>)
    ensures Map(f, a + b) == Map(f, a) + Map(f, b)
  {
  }

  // ---------------------------------------------------------------------------------------------
  // Trees with other texts

  /** The same nodes with each text `t` replaced by `f(t)`. */
  function Relabeled(f: string -> string, cs: seq<Node>): seq<Node>
    decreases cs, 0
  {
    if cs == [] then [] else [RelabeledAt(f, cs[0])] + Relabeled(f, cs[1..])
  }

  function RelabeledAt(f: string -> string, n: Node): Node
    decreases n, 1
  {
    match n
    case Element(name, attrs, children) => Element(name, attrs, Relabeled(f, children))
    case Fragment(children) => Fragment(Relabeled(f, children))
    case Text(t) => Text(f(t))
    case Other => Other
  }

  lemma RelabeledCons(f: string -> string, cs: seq<Node>)
    requires cs != []
    ensures
      var out := Relabeled(f, cs);
      out != [] && out[0] == RelabeledAt(f, cs[0]) && out[1..] == Relabeled(f, cs[1..])
  {
  }

  /** The texts of the new tree are the new texts of the old tree. */
  lemma {:induction false} AllTextsRelabeled(f: string -> string, cs: seq<Node>)
    ensures AllTexts(Relabeled(f, cs)) == Map(f, AllTexts(cs))
    decreases cs
  {
    if cs == [] {
    } else {
      RelabeledCons(f, cs);
      AllTextsRelabeled(f, cs[1..]);
      if cs[0].Element? || cs[0].Fragment? { AllTextsRelabeled(f, cs[0].children); }
      assert TextsAt(RelabeledAt(f, cs[0])) == Map(f, TextsAt(cs[0]));
      assert AllTexts(cs) == TextsAt(cs[0]) + AllTexts(cs[1..]);
      assert AllTexts(Relabeled(f, cs)) == TextsAt(RelabeledAt(f, cs[0])) + AllTexts(Relabeled(f, cs[1..]));
      hide *;
      MapConcat(f, TextsAt(cs[0]), AllTexts(cs[1..]));
    }
  }

  lemma {:induction false} DirectTextsRelabeled(f: string -> string, cs: seq<Node>)
    ensures DirectTexts(Relabeled(f, cs)) == Map(f, DirectTexts(cs))
  {
    if cs == [] {
    } else {
      RelabeledCons(f, cs);
      DirectTextsRelabeled(f, cs[1..]);
      MapConcat(f, if cs[0].Text? then [cs[0].text] else [], DirectTexts(cs[1..]));
    }
  }

  /** What `html_to_text` visits does not depend on the texts. */
  lemma {:induction false} VisitedRelabeled(f: string -> string, cs: seq<Node>)
    ensures VisitedIn(Relabeled(f, cs)) == Map(f, VisitedIn(cs))
    ensures VisitedInElements(Relabeled(f, cs)) == Map(f, VisitedInElements(cs))
    decreases cs
  {
    if cs == [] {
    } else {
      hide TextSkipped;
      RelabeledCons(f, cs);
      VisitedRelabeled(f, cs[1..]);
      var n, n' := cs[0], RelabeledAt(f, cs[0]);
      if n.Element? { VisitedRelabeled(f, n.children); }
      assert VisitedAt(n') == Map(f, VisitedAt(n));
      var first, first' := if n.Element? then Visited(n) else [], if n.Element? then Visited(n') else [];
      assert first' == Map(f, first);
      assert VisitedInElements(cs) == first + VisitedInElements(cs[1..]);
      assert VisitedInElements(Relabeled(f, cs)) == first' + VisitedInElements(Relabeled(f, cs[1..]));
      assert VisitedIn(cs) == VisitedAt(n) + VisitedIn(cs[1..]);
      assert VisitedIn(Relabeled(f, cs)) == VisitedAt(n') + VisitedIn(Relabeled(f, cs[1..]));
      hide *;
      MapConcat(f, VisitedAt(n), VisitedIn(cs[1..]));
      MapConcat(f, first, VisitedInElements(cs[1..]));
    }
  }

  /** What the Markdown walker shows does not depend on the texts. */
  lemma {:induction false} ShownRelabeled(f: string -> string, el: Node)
    requires el.Element?
    ensures Shown(RelabeledAt(f, el)) == Map(f, Shown(el))
    decreases el, 1
  {
    hide KindOf;
    var cs := el.children;
    match KindOf(el.name) {
      case Preformatted => AllTextsRelabeled(f, cs);
      case CodeSpan => DirectTextsRelabeled(f, cs);
      case _ => ShownInRelabeled(f, cs);
    }
  }

  lemma {:induction false} ShownInRelabeled(f: string -> string, cs: seq<Node>)
    ensures ShownInChildren(Relabeled(f, cs)) == Map(f, ShownInChildren(cs))
    ensures ShownInElements(Relabeled(f, cs)) == Map(f, ShownInElements(cs))
    ensures ShownInItems(Relabeled(f, cs)) == Map(f, ShownInItems(cs))
    decreases cs, 0
  {
    if cs == [] {
    } else {
      RelabeledCons(f, cs);
      ShownInRelabeled(f, cs[1..]);
      var n, n' := cs[0], RelabeledAt(f, cs[0]);
      if n.Element? {
        ShownRelabeled(f, n);
        ShownInRelabeled(f, n.children);
      }
      hide Shown;
      assert ShownAt(n') == Map(f, ShownAt(n));
      var el, el' := if n.Element? then Shown(n) else [], if n.Element? then Shown(n') else [];
      var item, item' :=
        if n.Element? then ShownInChildren(n.children) else [], if n.Element? then ShownInChildren(n'.children) else [];
      assert el' == Map(f, el) && item' == Map(f, item);
      assert ShownInChildren(cs) == ShownAt(n) + ShownInChildren(cs[1..]);
      assert ShownInChildren(Relabeled(f, cs)) == ShownAt(n') + ShownInChildren(Relabeled(f, cs[1..]));
      assert ShownInElements(cs) == el + ShownInElements(cs[1..]);
      assert ShownInElements(Relabeled(f, cs)) == el' + ShownInElements(Relabeled(f, cs[1..]));
      assert ShownInItems(cs) == item + ShownInItems(cs[1..]);
      assert ShownInItems(Relabeled(f, cs)) == item' + ShownInItems(Relabeled(f, cs[1..]));
      hide *;
      MapConcat(f, ShownAt(n), ShownInChildren(cs[1..]));
      MapConcat(f, el, ShownInElements(cs[1..]));
      MapConcat(f, item, ShownInItems(cs[1..]));
    }
  }

  // ---------------------------------------------------------------------------------------------
  // Numbering

  /** A number as a text: its length. */
  function Number(n: nat): string {
    seq(n, k => '#')
  }

  /** The nodes with every text replaced by its number in document order, from `n` on. */
  function Numbered(cs: seq<Node>, n: nat): seq<Node>
    decreases cs, 0
  {
    if cs == [] then [] else [NumberedAt(cs[0], n)] + Numbered(cs[1..], n + |TextsAt(cs[0])|)
  }

  function NumberedAt(node: Node, n: nat): Node
    decreases node, 1
  {
    match node
    case Element(name, attrs, children) => Element(name, attrs, Numbered(children, n))
    case Fragment(children) => Fragment(Numbered(children, n))
    case Text(_) => Text(Number(n))
    case Other => Other
  }

  lemma NumberedCons(cs: seq<Node>, n: nat)
    requires cs != []
    ensures
      var out := Numbered(cs, n);
      out != [] && out[0] == NumberedAt(cs[0], n) && out[1..] == Numbered(cs[1..], n + |TextsAt(cs[0])|)
  {
  }

  /** The texts of a numbered document are the numbers in order. */
  lemma {:induction false} NumberedTexts(cs: seq<Node>, n: nat)
    ensures |AllTexts(Numbered(cs, n))| == |AllTexts(cs)|
    ensures forall k :: 0 <= k < |AllTexts(cs)| ==> AllTexts(Numbered(cs, n))[k] == Number(n + k)
    decreases cs
  {
    if cs == [] {
    } else {
      NumberedCons(cs, n);
      var first, rest := TextsAt(cs[0]), AllTexts(cs[1..]);
      var first', rest' := TextsAt(NumberedAt(cs[0], n)), AllTexts(Numbered(cs[1..], n + |first|));
      NumberedTexts(cs[1..], n + |first|);
      if cs[0].Element? || cs[0].Fragment? { NumberedTexts(cs[0].children, n); }
      assert |first'| == |first| && forall k :: 0 <= k < |first| ==> first'[k] == Number(n + k);
      assert AllTexts(cs) == first + rest && AllTexts(Numbered(cs, n)) == first' + rest';
      hide *;
      forall k | 0 <= k < |first| + |rest| ensures (first' + rest')[k] == Number(n + k) {
        if k >= |first| { assert (first' + rest')[k] == rest'[k - |first|]; }
      }
    }
  }

  /** `f` takes the numbers from `n` on to the texts `ts`. */
  ghost predicate Names(f: string -> string, n: nat, ts: seq<string>) {
    forall k :: 0 <= k < |ts| ==> f(Number(n + k)) == ts[k]
  }

  lemma NamesParts(f: string -> string, n: nat, a: seq<string>, b: seq<string>)
    requires Names(f, n, a + b)
    ensures Names(f, n, a) && Names(f, n + |a|, b)
  {
    hide Number;
    forall k | 0 <= k < |a| ensures f(Number(n + k)) == a[k] {
      assert (a + b)[k] == a[k];
    }
    forall k | 0 <= k < |b| ensures f(Number(n + |a| + k)) == b[k] {
      assert (a + b)[|a| + k] == b[k];
      assert n + |a| + k == n + (|a| + k);
    }
  }

  lemma NamesOne(f: string -> string, n: nat, t: string)
    requires Names(f, n, [t])
    ensures f(Number(n)) == t
  {
    assert [t][0] == t;
  }

  /** Putting the texts back in the place of their numbers gives the document. */
  lemma {:induction false} NumbersRelabeled(f: string -> string, cs: seq<Node>, n: nat)
    requires Names(f, n, AllTexts(cs))
    ensures Relabeled(f, Numbered(cs, n)) == cs
    decreases cs
  {
    if cs == [] {
    } else {
      hide Names;
      hide Number;
      var first, rest := TextsAt(cs[0]), AllTexts(cs[1..]);
      assert AllTexts(cs) == first + rest;
      NamesParts(f, n, first, rest);
      NumbersRelabeled(f, cs[1..], n + |first|);
      match cs[0] {
        case Element(_, _, children) => NumbersRelabeled(f, children, n);
        case Fragment(children) => NumbersRelabeled(f, children, n);
        case Text(t) => NamesOne(f, n, t);
        case Other =>
      }
      assert RelabeledAt(f, NumberedAt(cs[0], n)) == cs[0];
      NumberedCons(cs, n);
      RelabeledCons(f, Numbered(cs, n));
      hide *;
      assert cs == [cs[0]] + cs[1..];
    }
  }
}
