/** Which texts the two walkers of src/actions/scrape.rs have in common. */
module Agreement {
  import opened Dom
  import opened PlainText
  import opened TextPositions
  import T = Text
  import G = Glyphs
  import D = DomToMarkdown

  // ---------------------------------------------------------------------------------------------
  // Subsequences

  ghost predicate Subsequence<X>(a: seq<X>, b: seq<X>) {
    || a == []
    || (b != [] && ((a[0] == b[0] && Subsequence(a[1..], b[1..])) || Subsequence(a, b[1..])))
  }

  lemma {:induction false} SubsequenceOfSelf<X>(a: seq<X>)
    ensures Subsequence(a, a)
  {
    if a == [] {
    } else {
      SubsequenceOfSelf(a[1..]);
    }
  }

  lemma {:induction false} SubsequenceConcat<X>(a: seq<X>, b: seq<X>, c: seq<X>, d: seq<X>)
    requires Subsequence(a, b) && Subsequence(c, d)
    ensures Subsequence(a + c, b + d)
    decreases |b|
  {
    if b == [] {
      assert a + c == c && b + d == d;
    } else {
      assert (b + d)[1..] == b[1..] + d;
      if a != [] && a[0] == b[0] && Subsequence(a[1..], b[1..]) {
        SubsequenceConcat(a[1..], b[1..], c, d);
        assert (a + c)[1..] == a[1..] + c;
      } else {
        SubsequenceConcat(a, b[1..], c, d);
      }
    }
  }

  lemma {:induction false} SubsequenceMembers<X>(a: seq<X>, b: seq<X>)
    requires Subsequence(a, b)
    ensures forall x :: x in a ==> x in b
    decreases |b|
  {
    if a == [] {
    } else {
      var tail := a[0] == b[0] && Subsequence(a[1..], b[1..]);
      SubsequenceMembers(if tail then a[1..] else a, b[1..]);
      forall x | x in a ensures x in b {
        if tail { assert x == a[0] || x in a[1..]; }
      }
    }
  }

  // ---------------------------------------------------------------------------------------------
  // Both walkers and the texts of the tree

  /** What one node shows, in each of the four ways the Markdown walker looks at it. */
  function AsElement(n: Node): seq<string> {
    if n.Element? then D.Shown(n) else []
  }

  function AsItem(n: Node): seq<string> {
    if n.Element? then D.ShownInChildren(n.children) else []
  }

  function AsText(n: Node): seq<string> {
    if n.Text? then [n.text] else []
  }

  lemma ShownCons(cs: seq<Node>)
    requires cs != []
    ensures AllTexts(cs) == TextsAt(cs[0]) + AllTexts(cs[1..])
    ensures D.ShownInChildren(cs) == D.ShownAt(cs[0]) + D.ShownInChildren(cs[1..])
    ensures D.ShownInElements(cs) == AsElement(cs[0]) + D.ShownInElements(cs[1..])
    ensures D.ShownInItems(cs) == AsItem(cs[0]) + D.ShownInItems(cs[1..])
    ensures DirectTexts(cs) == AsText(cs[0]) + DirectTexts(cs[1..])
  {
    hide D.Shown;
    hide TextsAt;
  }

  ghost predicate AreTexts(cs: seq<Node>) {
    && Subsequence(D.ShownInChildren(cs), AllTexts(cs))
    && Subsequence(D.ShownInElements(cs), AllTexts(cs))
    && Subsequence(D.ShownInItems(cs), AllTexts(cs))
    && Subsequence(DirectTexts(cs), AllTexts(cs))
  }

  lemma NothingIsSubsequence<X>(b: seq<X>)
    ensures Subsequence([], b)
  {
  }

  lemma NodeIsTexts(n: Node)
    requires n.Element? ==> AreTexts(n.children)
    ensures Subsequence(D.ShownAt(n), TextsAt(n))
    ensures Subsequence(AsElement(n), TextsAt(n))
    ensures Subsequence(AsItem(n), TextsAt(n))
    ensures Subsequence(AsText(n), TextsAt(n))
  {
    hide KindOf;
    SubsequenceOfSelf(TextsAt(n));
    if n.Element? {
      assert TextsAt(n) == AllTexts(n.children);
      hide AllTexts;
      hide TextsAt;
      hide Subsequence;
      NothingIsSubsequence(AllTexts(n.children));
      assert Subsequence(D.Shown(n), AllTexts(n.children));
    }
  }

  /** The Markdown walker takes texts in document order and none twice. */
  lemma {:induction false} ShownAreTexts(cs: seq<Node>)
    ensures AreTexts(cs)
    decreases cs
  {
    if cs == [] {
    } else {
      ShownAreTexts(cs[1..]);
      if cs[0].Element? { ShownAreTexts(cs[0].children); }
      NodeIsTexts(cs[0]);
      ShownCons(cs);
      assert AreTexts(cs) by {
        hide D.ShownInChildren;
        hide D.ShownInElements;
        hide D.ShownInItems;
        hide D.ShownAt;
        hide DirectTexts;
        hide AsElement;
        hide AsItem;
        hide AllTexts;
        hide TextsAt;
        hide Subsequence;
        SubsequenceConcat(D.ShownAt(cs[0]), TextsAt(cs[0]), D.ShownInChildren(cs[1..]), AllTexts(cs[1..]));
        SubsequenceConcat(AsElement(cs[0]), TextsAt(cs[0]), D.ShownInElements(cs[1..]), AllTexts(cs[1..]));
        SubsequenceConcat(AsItem(cs[0]), TextsAt(cs[0]), D.ShownInItems(cs[1..]), AllTexts(cs[1..]));
        SubsequenceConcat(AsText(cs[0]), TextsAt(cs[0]), DirectTexts(cs[1..]), AllTexts(cs[1..]));
      }
    }
  }

  lemma {:induction false} VisitedAreTexts(cs: seq<Node>)
    ensures Subsequence(VisitedIn(cs), AllTexts(cs))
    ensures Subsequence(VisitedInElements(cs), AllTexts(cs))
    decreases cs
  {
    if cs == [] {
    } else {
      hide TextSkipped;
      if cs[0].Element? { VisitedAreTexts(cs[0].children); }
      VisitedAreTexts(cs[1..]);
      var all, rest := TextsAt(cs[0]), AllTexts(cs[1..]);
      assert AllTexts(cs) == all + rest;
      assert VisitedIn(cs) == VisitedAt(cs[0]) + VisitedIn(cs[1..]);
      SubsequenceOfSelf(all);
      var el := if cs[0].Element? then Visited(cs[0]) else [];
      SubsequenceConcat(VisitedAt(cs[0]), all, VisitedIn(cs[1..]), rest);
      SubsequenceConcat(el, all, VisitedInElements(cs[1..]), rest);
    }
  }

  // ---------------------------------------------------------------------------------------------
  // Where nothing is shown that is not visited

  /** No text-skipped element and no template's fragment, at any depth, holds a text. */
  predicate SkippedAreTextless(cs: seq<Node>) {
    cs != [] ==>
      && SkippedAreTextless(cs[1..])
      && (cs[0].Fragment? ==> AllTexts(cs[0].children) == [])
      && (cs[0].Element? ==>
            if TextSkipped(cs[0].name) then AllTexts(cs[0].children) == [] else SkippedAreTextless(cs[0].children))
  }

  /** Wherever the Markdown walker does not look at what holds a text, namely below a `pre` and directly
      under an `ol`, what the other walker passes by has nothing to show. */
  predicate Placed(el: Node)
    requires el.Element?
    decreases el, 1
  {
    match KindOf(el.name)
    case Break => true
    case Rule => true
    case Image => true
    case Frame => true
    case Skipped => true
    case CodeSpan => true
    case Preformatted => SkippedAreTextless(el.children)
    case OrderedList => PlacedItems(el.children)
    case _ => PlacedIn(el.children)
  }

  predicate PlacedIn(cs: seq<Node>)
    decreases cs, 0
  {
    cs != [] ==> PlacedIn(cs[1..]) && (cs[0].Element? ==> Placed(cs[0]))
  }

  predicate PlacedItems(cs: seq<Node>)
    decreases cs, 0
  {
    cs != [] ==>
      && PlacedItems(cs[1..])
      && (cs[0].Element? ==>
            if TextSkipped(cs[0].name) then D.ShownInChildren(cs[0].children) == [] else PlacedIn(cs[0].children))
  }

  lemma {:induction false} NothingSkipped(cs: seq<Node>)
    requires SkippedAreTextless(cs)
    ensures VisitedIn(cs) == AllTexts(cs)
  {
    if cs == [] {
    } else {
      hide TextSkipped;
      NothingSkipped(cs[1..]);
      if cs[0].Element? && !TextSkipped(cs[0].name) {
        NothingSkipped(cs[0].children);
        assert Visited(cs[0]) == VisitedIn(cs[0].children);
      }
      assert VisitedIn(cs) == VisitedAt(cs[0]) + VisitedIn(cs[1..]);
      assert AllTexts(cs) == TextsAt(cs[0]) + AllTexts(cs[1..]);
      assert VisitedAt(cs[0]) == TextsAt(cs[0]);
    }
  }

  lemma {:induction false} DirectTextsAreVisited(cs: seq<Node>)
    ensures Subsequence(DirectTexts(cs), VisitedIn(cs))
  {
    if cs == [] {
    } else {
      hide Visited;
      DirectTextsAreVisited(cs[1..]);
      var first := if cs[0].Text? then [cs[0].text] else [];
      if cs[0].Text? { SubsequenceOfSelf(first); }
      SubsequenceConcat(first, VisitedAt(cs[0]), DirectTexts(cs[1..]), VisitedIn(cs[1..]));
    }
  }

  lemma {:induction false} ElementAgrees(el: Node)
    requires el.Element? && Placed(el)
    ensures Subsequence(D.Shown(el), Visited(el))
    decreases el, 1
  {
    if TextSkipped(el.name) {
      TextSkippedIsSkipped(el.name);
    } else {
      hide KindOf;
      hide TextSkipped;
      var cs := el.children;
      match KindOf(el.name) {
        case Break =>
        case Rule =>
        case Image =>
        case Frame =>
        case Skipped =>
        case Preformatted =>
          NothingSkipped(cs);
          SubsequenceOfSelf(AllTexts(cs));
        case CodeSpan => DirectTextsAreVisited(cs);
        case UnorderedList => ElementsAgree(cs);
        case OrderedList => ItemsAgree(cs);
        case _ => ChildrenAgree(cs);
      }
    }
  }

  lemma {:induction false} ChildrenAgree(cs: seq<Node>)
    requires PlacedIn(cs)
    ensures Subsequence(D.ShownInChildren(cs), VisitedIn(cs))
    decreases cs, 0
  {
    if cs == [] {
    } else {
      ChildrenAgree(cs[1..]);
      if cs[0].Element? { ElementAgrees(cs[0]); }
      hide Visited;
      hide D.Shown;
      hide Placed;
      hide KindOf;
      var shown := D.ShownAt(cs[0]);
      if cs[0].Text? { SubsequenceOfSelf(shown); }
      SubsequenceConcat(shown, VisitedAt(cs[0]), D.ShownInChildren(cs[1..]), VisitedIn(cs[1..]));
    }
  }

  lemma {:induction false} ElementsAgree(cs: seq<Node>)
    requires PlacedIn(cs)
    ensures Subsequence(D.ShownInElements(cs), VisitedIn(cs))
    ensures Subsequence(D.ShownInElements(cs), VisitedInElements(cs))
    decreases cs, 0
  {
    if cs == [] {
    } else {
      ElementsAgree(cs[1..]);
      if cs[0].Element? { ElementAgrees(cs[0]); }
      hide Visited;
      hide D.Shown;
      hide Placed;
      hide KindOf;
      var shown := if cs[0].Element? then D.Shown(cs[0]) else [];
      var visited := if cs[0].Element? then Visited(cs[0]) else [];
      SubsequenceConcat(shown, VisitedAt(cs[0]), D.ShownInElements(cs[1..]), VisitedIn(cs[1..]));
      SubsequenceConcat(shown, visited, D.ShownInElements(cs[1..]), VisitedInElements(cs[1..]));
    }
  }

  lemma {:induction false} ItemsAgree(cs: seq<Node>)
    requires PlacedItems(cs)
    ensures Subsequence(D.ShownInItems(cs), VisitedIn(cs))
    decreases cs, 0
  {
    if cs == [] {
    } else {
      hide TextSkipped;
      hide KindOf;
      ItemsAgree(cs[1..]);
      var shown := if cs[0].Element? then D.ShownInChildren(cs[0].children) else [];
      if cs[0].Element? && !TextSkipped(cs[0].name) {
        ChildrenAgree(cs[0].children);
        assert Visited(cs[0]) == VisitedIn(cs[0].children);
      }
      hide Visited;
      hide D.ShownInChildren;
      SubsequenceConcat(shown, VisitedAt(cs[0]), D.ShownInItems(cs[1..]), VisitedIn(cs[1..]));
    }
  }

  // Where an element is not well placed, a text is shown that is not visited.

  ghost predicate Distinct(ts: seq<string>) {
    forall i, k :: 0 <= i < k < |ts| ==> ts[i] != ts[k]
  }

  lemma DistinctParts(a: seq<string>, b: seq<string>)
    requires Distinct(a + b)
    ensures Distinct(a) && Distinct(b)
    ensures forall t :: t in a ==> t !in b
  {
    forall i, k | 0 <= i < |a| && 0 <= k < |b| ensures a[i] != b[k] {
      assert (a + b)[i] == a[i] && (a + b)[|a| + k] == b[k];
    }
    forall i, k | 0 <= i < k < |b| ensures b[i] != b[k] {
      assert (a + b)[|a| + i] == b[i] && (a + b)[|a| + k] == b[k];
    }
    forall i, k | 0 <= i < k < |a| ensures a[i] != a[k] {
      assert (a + b)[i] == a[i] && (a + b)[k] == a[k];
    }
  }

  /** A text of one child that its own walk misses is missed altogether. */
  lemma MissedByAll(cs: seq<Node>, t: string, inHead: bool)
    requires cs != [] && Distinct(AllTexts(cs))
    requires if inHead then t in TextsAt(cs[0]) && t !in VisitedAt(cs[0])
             else t in AllTexts(cs[1..]) && t !in VisitedIn(cs[1..])
    ensures t in AllTexts(cs) && t !in VisitedIn(cs)
  {
    hide TextSkipped;
    VisitedAreTexts(cs[1..]);
    SubsequenceMembers(VisitedIn(cs[1..]), AllTexts(cs[1..]));
    VisitedAreTexts([cs[0]]);
    SubsequenceMembers(VisitedIn([cs[0]]), AllTexts([cs[0]]));
    assert [cs[0]][1..] == [];
    assert AllTexts([cs[0]]) == TextsAt(cs[0]) && VisitedIn([cs[0]]) == VisitedAt(cs[0]);
    assert AllTexts(cs) == TextsAt(cs[0]) + AllTexts(cs[1..]);
    DistinctParts(TextsAt(cs[0]), AllTexts(cs[1..]));
  }

  lemma DistinctChildren(cs: seq<Node>)
    requires cs != [] && Distinct(AllTexts(cs))
    ensures Distinct(TextsAt(cs[0])) && Distinct(AllTexts(cs[1..]))
  {
    assert AllTexts(cs) == TextsAt(cs[0]) + AllTexts(cs[1..]);
    DistinctParts(TextsAt(cs[0]), AllTexts(cs[1..]));
  }

  lemma {:induction false} MissedBelowPre(cs: seq<Node>) returns (t: string)
    requires !SkippedAreTextless(cs) && Distinct(AllTexts(cs))
    ensures t in AllTexts(cs) && t !in VisitedIn(cs)
    decreases cs
  {
    DistinctChildren(cs);
    hide TextSkipped;
    hide Distinct;
    if !SkippedAreTextless(cs[1..]) {
      t := MissedBelowPre(cs[1..]);
      MissedByAll(cs, t, false);
    } else {
      if cs[0].Fragment? || TextSkipped(cs[0].name) {
        t := AllTexts(cs[0].children)[0];
      } else {
        t := MissedBelowPre(cs[0].children);
      }
      MissedByAll(cs, t, true);
    }
  }

  lemma {:induction false} Missed(el: Node) returns (t: string)
    requires el.Element? && !Placed(el) && Distinct(AllTexts(el.children))
    ensures t in D.Shown(el) && t in AllTexts(el.children) && t !in Visited(el)
    decreases el, 1
  {
    hide TextSkipped;
    hide KindOf;
    hide Distinct;
    var cs := el.children;
    match KindOf(el.name) {
      case Preformatted => t := MissedBelowPre(cs);
      case OrderedList => t := MissedInItems(cs);
      case Break => assert false;
      case Rule => assert false;
      case Image => assert false;
      case Frame => assert false;
      case Skipped => assert false;
      case CodeSpan => assert false;
      case _ => t := MissedIn(cs);
    }
  }

  lemma {:induction false} MissedIn(cs: seq<Node>) returns (t: string)
    requires !PlacedIn(cs) && Distinct(AllTexts(cs))
    ensures t in D.ShownInChildren(cs) && t in D.ShownInElements(cs)
    ensures t in AllTexts(cs) && t !in VisitedIn(cs)
    decreases cs, 0
  {
    DistinctChildren(cs);
    hide TextSkipped;
    hide KindOf;
    hide Distinct;
    if !PlacedIn(cs[1..]) {
      t := MissedIn(cs[1..]);
      MissedByAll(cs, t, false);
    } else {
      t := Missed(cs[0]);
      MissedByAll(cs, t, true);
    }
  }

  lemma {:induction false} MissedInItems(cs: seq<Node>) returns (t: string)
    requires !PlacedItems(cs) && Distinct(AllTexts(cs))
    ensures t in D.ShownInItems(cs)
    ensures t in AllTexts(cs) && t !in VisitedIn(cs)
    decreases cs, 0
  {
    DistinctChildren(cs);
    hide TextSkipped;
    hide KindOf;
    hide Distinct;
    if !PlacedItems(cs[1..]) {
      t := MissedInItems(cs[1..]);
      MissedByAll(cs, t, false);
    } else {
      if TextSkipped(cs[0].name) {
        t := D.ShownInChildren(cs[0].children)[0];
        ShownAreTexts(cs[0].children);
        SubsequenceMembers(D.ShownInChildren(cs[0].children), AllTexts(cs[0].children));
      } else {
        t := MissedIn(cs[0].children);
      }
      MissedByAll(cs, t, true);
    }
  }

  lemma {:induction false} RootVisitedAreVisited(doc: seq<Node>)
    ensures forall t :: t in VisitedInElements(doc) ==> t in VisitedIn(doc)
  {
    if doc == [] {
    } else {
      hide Visited;
      RootVisitedAreVisited(doc[1..]);
    }
  }

  lemma {:induction false} LettersSubsequence(a: seq<string>, b: seq<string>)
    requires Subsequence(a, b)
    ensures Subsequence(D.Letters(a), D.Letters(b))
    decreases |b|
  {
    if a == [] {
    } else {
      hide T.NonWhite;
      var first := T.NonWhite(b[0]);
      if a[0] == b[0] && Subsequence(a[1..], b[1..]) {
        LettersSubsequence(a[1..], b[1..]);
        SubsequenceOfSelf(first);
        SubsequenceConcat(first, first, D.Letters(a[1..]), D.Letters(b[1..]));
      } else {
        LettersSubsequence(a, b[1..]);
        SubsequenceConcat([], first, D.Letters(a), D.Letters(b[1..]));
        assert [] + D.Letters(a) == D.Letters(a);
      }
    }
  }

  /** On well-placed documents the Markdown shows no text that the plain text does not: its texts,
      and the letters of its final output, are a subsequence of those of `html_to_text`. */
  lemma WalkersAgree(doc: seq<Node>)
    requires PlacedIn(doc)
    ensures Subsequence(D.ShownInElements(doc), VisitedInElements(doc))
    ensures Subsequence(G.Content(D.EmitDocument(doc)), T.NonWhite(Spaced(Words(VisitedInElements(doc)))))
  {
    ElementsAgree(doc);
    LettersSubsequence(D.ShownInElements(doc), VisitedInElements(doc));
    D.ContentIsConserved(doc);
    PlainTextMeaning(doc);
  }

  // ---------------------------------------------------------------------------------------------
  // Text by text: positions instead of texts

  function Size(t: string): nat {
    |t|
  }

  /** Which texts, by their numbers in document order, reach the Markdown and the plain text. */
  function ShownPositions(doc: seq<Node>): seq<nat> {
    Map(Size, D.ShownInElements(Numbered(doc, 0)))
  }

  function VisitedPositions(doc: seq<Node>): seq<nat> {
    Map(Size, VisitedInElements(Numbered(doc, 0)))
  }

  /** What holds a text, not what it says, decides whether a document is well placed. */
  lemma {:induction false} TextlessRelabeled(f: string -> string, cs: seq<Node>)
    ensures SkippedAreTextless(Relabeled(f, cs)) <==> SkippedAreTextless(cs)
    decreases cs
  {
    if cs == [] {
    } else {
      RelabeledCons(f, cs);
      TextlessRelabeled(f, cs[1..]);
      if cs[0].Element? || cs[0].Fragment? {
        AllTextsRelabeled(f, cs[0].children);
        TextlessRelabeled(f, cs[0].children);
      }
    }
  }

  lemma {:induction false} PlacedRelabeled(f: string -> string, el: Node)
    requires el.Element?
    ensures Placed(RelabeledAt(f, el)) <==> Placed(el)
    decreases el, 1
  {
    hide KindOf;
    match KindOf(el.name) {
      case Preformatted => TextlessRelabeled(f, el.children);
      case _ => PlacedInRelabeled(f, el.children);
    }
  }

  lemma {:induction false} PlacedInRelabeled(f: string -> string, cs: seq<Node>)
    ensures PlacedIn(Relabeled(f, cs)) <==> PlacedIn(cs)
    ensures PlacedItems(Relabeled(f, cs)) <==> PlacedItems(cs)
    decreases cs, 0
  {
    if cs == [] {
    } else {
      hide TextSkipped;
      RelabeledCons(f, cs);
      PlacedInRelabeled(f, cs[1..]);
      if cs[0].Element? {
        PlacedRelabeled(f, cs[0]);
        PlacedInRelabeled(f, cs[0].children);
        ShownInRelabeled(f, cs[0].children);
      }
      hide Placed;
    }
  }

  /** The text with a given number. */
  function TextNumbered(doc: seq<Node>): string -> string {
    (t: string) => if |t| < |AllTexts(doc)| then AllTexts(doc)[|t|] else ""
  }

  lemma NumbersName(doc: seq<Node>)
    ensures Relabeled(TextNumbered(doc), Numbered(doc, 0)) == doc
  {
    NumbersRelabeled(TextNumbered(doc), doc, 0);
  }

  /** Strictly increasing numbers from `from` up to but excluding `to`. */
  ghost predicate Increasing(ps: seq<nat>, from: nat, to: nat) {
    && (forall k :: 0 <= k < |ps| ==> from <= ps[k] < to)
    && (forall i, k :: 0 <= i < k < |ps| ==> ps[i] < ps[k])
  }

  lemma {:induction false} SomeNumbers(a: seq<string>, b: seq<string>, n: nat)
    requires Subsequence(a, b) && forall k :: 0 <= k < |b| ==> b[k] == Number(n + k)
    ensures Increasing(Map(Size, a), n, n + |b|)
    decreases |b|
  {
    if a == [] {
    } else {
      assert forall k :: 0 <= k < |b[1..]| ==> b[1..][k] == b[k + 1];
      assert |b[0]| == n;
      if a[0] == b[0] && Subsequence(a[1..], b[1..]) {
        SomeNumbers(a[1..], b[1..], n + 1);
        var ps, rest := Map(Size, a), Map(Size, a[1..]);
        assert forall k :: 0 < k < |a| ==> ps[k] == rest[k - 1];
      } else {
        SomeNumbers(a, b[1..], n + 1);
      }
    }
  }

  /** The texts `ts` are those that stand at `ps`. */
  ghost predicate StandAt(doc: seq<Node>, ts: seq<string>, ps: seq<nat>) {
    && |ts| == |ps|
    && forall k :: 0 <= k < |ts| ==> ps[k] < |AllTexts(doc)| && ts[k] == AllTexts(doc)[ps[k]]
  }

  lemma NumbersStand(doc: seq<Node>, numbers: seq<string>)
    requires Subsequence(numbers, AllTexts(Numbered(doc, 0)))
    ensures
      var ps := Map(Size, numbers);
      Increasing(ps, 0, |AllTexts(doc)|) && StandAt(doc, Map(TextNumbered(doc), numbers), ps)
  {
    NumberedTexts(doc, 0);
    hide AllTexts;
    hide Numbered;
    SomeNumbers(numbers, AllTexts(Numbered(doc, 0)), 0);
  }

  /** Both walkers take their texts in document order and each at most once, and the positions are
      where those texts stand. */
  lemma PositionsMeaning(doc: seq<Node>)
    ensures Increasing(ShownPositions(doc), 0, |AllTexts(doc)|)
    ensures Increasing(VisitedPositions(doc), 0, |AllTexts(doc)|)
    ensures StandAt(doc, D.ShownInElements(doc), ShownPositions(doc))
    ensures StandAt(doc, VisitedInElements(doc), VisitedPositions(doc))
  {
    var numbered := Numbered(doc, 0);
    ShownAreTexts(numbered);
    VisitedAreTexts(numbered);
    ShownInRelabeled(TextNumbered(doc), numbered);
    VisitedRelabeled(TextNumbered(doc), numbered);
    NumbersName(doc);
    var shown, visited := D.ShownInElements(numbered), VisitedInElements(numbered);
    assert ShownPositions(doc) == Map(Size, shown) && VisitedPositions(doc) == Map(Size, visited);
    hide *;
    NumbersStand(doc, shown);
    NumbersStand(doc, visited);
  }

  lemma DistinctNumbers(ts: seq<string>, n: nat)
    requires forall k :: 0 <= k < |ts| ==> ts[k] == Number(n + k)
    ensures Distinct(ts)
  {
    forall i, k | 0 <= i < k < |ts| ensures ts[i] != ts[k] {
      assert |ts[i]| == n + i && |ts[k]| == n + k;
    }
  }

  /** A number that is shown and not visited stands for a position that is not visited. */
  lemma MissedNumber(numbers: seq<string>, shown: seq<string>, visited: seq<string>, t: string)
    requires forall k :: 0 <= k < |numbers| ==> numbers[k] == Number(k)
    requires t in numbers && t in shown && t !in visited && forall u :: u in visited ==> u in numbers
    ensures
        |t| in Map(Size, shown) && |t| !in Map(Size, visited)
  {
    var i :| 0 <= i < |shown| && shown[i] == t;
    assert Map(Size, shown)[i] == |t|;
    forall k | 0 <= k < |visited| ensures Map(Size, visited)[k] != |t| {
      assert visited[k] in numbers;
    }
  }

  lemma {:induction false} MapSubsequence<X, Y>(f: X -> Y, a: seq<X>, b: seq<X>)
    requires Subsequence(a, b)
    ensures Subsequence(Map(f, a), Map(f, b))
    decreases |b|
  {
    if a == [] {
    } else if a[0] == b[0] && Subsequence(a[1..], b[1..]) {
      MapSubsequence(f, a[1..], b[1..]);
      assert Map(f, a)[1..] == Map(f, a[1..]) && Map(f, b)[1..] == Map(f, b[1..]);
    } else {
      MapSubsequence(f, a, b[1..]);
      assert Map(f, b)[1..] == Map(f, b[1..]);
    }
  }

  /** Every text node whose text reaches the Markdown is also visited by `html_to_text`, exactly if the
      document is well placed. */
  lemma AgreeIffPlaced(doc: seq<Node>)
    ensures (forall p :: p in ShownPositions(doc) ==> p in VisitedPositions(doc)) <==> PlacedIn(doc)
    ensures Subsequence(ShownPositions(doc), VisitedPositions(doc)) <==> PlacedIn(doc)
  {
    var numbered := Numbered(doc, 0);
    var shown, visited := D.ShownInElements(numbered), VisitedInElements(numbered);
    assert ShownPositions(doc) == Map(Size, shown) && VisitedPositions(doc) == Map(Size, visited);
    NumbersName(doc);
    PlacedInRelabeled(TextNumbered(doc), numbered);
    NumberedTexts(doc, 0);
    DistinctNumbers(AllTexts(numbered), 0);
    hide *;
    if PlacedIn(doc) {
      ElementsAgree(numbered);
      MapSubsequence(Size, shown, visited);
      SubsequenceMembers(Map(Size, shown), Map(Size, visited));
    } else {
      var t := MissedIn(numbered);
      RootVisitedAreVisited(numbered);
      VisitedAreTexts(numbered);
      SubsequenceMembers(visited, AllTexts(numbered));
      MissedNumber(AllTexts(numbered), shown, visited, t);
      if Subsequence(Map(Size, shown), Map(Size, visited)) {
        SubsequenceMembers(Map(Size, shown), Map(Size, visited));
      }
    }
  }

  /** The documented intention that neither walker shows scripts fails below `pre`. */
  lemma PreShowsScripts(code: string)
    ensures
      var doc := [Element("pre", map[], [Element("script", map[], [Text(code)])])];
      D.ShownInElements(doc) == [code] && VisitedInElements(doc) == []
  {
    var script := Element("script", map[], [Text(code)]);
    var pre := Element("pre", map[], [script]);
    assert [Text(code)][1..] == [] && [script][1..] == [] && [pre][1..] == [];
    assert AllTexts([script]) == AllTexts([Text(code)]) == [code];
    assert TextSkipped("script");
    assert VisitedIn([script]) == VisitedAt(script) + VisitedIn([]) == [];
    assert KindOf("pre") == Preformatted && !TextSkipped("pre");
  }

  /** Nor is the content of a template visited, which no walker looks into, but `pre` shows it. */
  lemma PreShowsTemplates(text: string)
    ensures
      var doc := [Element("pre", map[], [Element("template", map[], [Fragment([Text(text)])])])];
      D.ShownInElements(doc) == [text] && VisitedInElements(doc) == []
  {
    var fragment := Fragment([Text(text)]);
    var template := Element("template", map[], [fragment]);
    var pre := Element("pre", map[], [template]);
    assert [Text(text)][1..] == [] && [fragment][1..] == [] && [template][1..] == [] && [pre][1..] == [];
    assert AllTexts([template]) == AllTexts([fragment]) == AllTexts([Text(text)]) == [text];
    assert VisitedIn([fragment]) == VisitedAt(fragment) + VisitedIn([]) == [];
    assert VisitedIn([template]) == VisitedAt(template) + VisitedIn([]) == [];
    assert KindOf("pre") == Preformatted && !TextSkipped("pre");
  }
}
