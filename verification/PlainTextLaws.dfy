/** Which elements contribute to the plain text, by their literal names. */
module PlainTextLaws {
  import opened Dom
  import opened Sequences
  import opened PlainText
  import L = WhitespaceLaws

  type Attrs = map<string, string>

  /** These contribute nothing, with all that is in them; all others contribute what their children do. */
  lemma ContributionByName(name: string, attrs: Attrs, cs: seq<Node>)
    ensures Visited(Element(name, attrs, cs))
         == if name in {"script", "style", "nav", "footer", "aside", "head"} then [] else VisitedIn(cs)
  {
    hide VisitedIn;
  }

  /** Children contribute one after the other. */
  lemma ContributionByChild(n: Node, rest: seq<Node>)
    ensures n.Element? ==> VisitedIn([n] + rest) == Visited(n) + VisitedIn(rest)
    ensures n.Text? ==> VisitedIn([n] + rest) == [n.text] + VisitedIn(rest)
    ensures n.Fragment? || n.Other? ==> VisitedIn([n] + rest) == VisitedIn(rest)
  {
    var cs := [n] + rest;
    assert cs[0] == n && cs[1..] == rest;
    assert VisitedIn(cs) == VisitedAt(n) + VisitedIn(rest);
    hide Visited;
    hide VisitedIn;
    assert [] + VisitedIn(rest) == VisitedIn(rest);
  }

  lemma {:induction false} VisitedConcat(a: seq<Node>, b: seq<Node>)
    ensures VisitedIn(a + b) == VisitedIn(a) + VisitedIn(b)
    ensures VisitedInElements(a + b) == VisitedInElements(a) + VisitedInElements(b)
    decreases |a|
  {
    hide Visited;
    hide VisitedAt;
    if a == [] {
      assert a + b == b;
      assert [] + VisitedIn(b) == VisitedIn(b);
    } else {
      VisitedConcat(a[1..], b);
      assert (a + b)[1..] == a[1..] + b && (a + b)[0] == a[0];
      Regroup(VisitedAt(a[0]), VisitedIn(a[1..]), VisitedIn(b));
      var first := if a[0].Element? then Visited(a[0]) else [];
      Regroup(first, VisitedInElements(a[1..]), VisitedInElements(b));
    }
  }

  /** A navigation bar, a footer, a script: taken out of a document, its plain text is the same. */
  lemma SkippedCanBeTakenOut(name: string, attrs: Attrs, cs: seq<Node>, before: seq<Node>, rest: seq<Node>)
    requires name in {"script", "style", "nav", "footer", "aside", "head"}
    ensures VisitedInElements(before + [Element(name, attrs, cs)] + rest) == VisitedInElements(before + rest)
    ensures VisitedIn(before + [Element(name, attrs, cs)] + rest) == VisitedIn(before + rest)
  {
    var n := Element(name, attrs, cs);
    ContributionByName(name, attrs, cs);
    assert VisitedAt(n) == [];
    hide Visited;
    hide VisitedAt;
    VisitedConcat(before + [n], rest);
    VisitedConcat(before, [n]);
    VisitedConcat(before, rest);
    assert [n][1..] == [];
    assert VisitedIn([n]) == VisitedAt(n) + VisitedIn([]) == [];
    assert VisitedInElements([n]) == Visited(n) + VisitedInElements([]) == [];
  }

  /** A word with no whitespace in it, and whitespace around it. */
  ghost predicate IsPaddedWord(t: string, w: string) {
    && w != ""
    && (forall k :: 0 <= k < |w| ==> w[k] !in L.WHITE)
    && exists a, b :: L.AllWhite(a) && L.AllWhite(b) && t == a + w + b
  }

  lemma PaddedWord(t: string, w: string)
    requires IsPaddedWord(t, w)
    ensures Word(t) == w
  {
    var a, b :| L.AllWhite(a) && L.AllWhite(b) && t == a + w + b;
    L.WhiteCharacters(w[0]);
    L.WhiteCharacters(w[|w| - 1]);
    L.TrimPadded(a, w, b);
    L.OthersAreUnchanged(w);
  }

  lemma WhiteIsNoWord(gap: string)
    requires L.AllWhite(gap)
    ensures Word(gap) == ""
  {
    L.TrimPadded(gap, "", "");
    assert gap + "" + "" == gap;
  }

  lemma WordsCons(t: string, rest: seq<string>)
    ensures Words([t] + rest) == (if Word(t) == "" then [] else [Word(t)]) + Words(rest)
  {
    hide Word;
    assert ([t] + rest)[1..] == rest;
  }

  lemma SpacedTwo(w: string, w': string)
    ensures Spaced([w, w']) == w + " " + w'
  {
    assert [w, w'][1..] == [w'];
    assert Join([w'], " ") == w';
  }

  /** The words of two texts are joined by one space, and white texts between them leave no trace. */
  lemma TwoTexts(t: string, w: string, gap: string, t': string, w': string)
    requires IsPaddedWord(t, w) && IsPaddedWord(t', w') && L.AllWhite(gap)
    ensures Spaced(Words([t, gap, t'])) == w + " " + w'
  {
    assert w != "" && w' != "";
    assert Words([]) == [];
    hide *;
    PaddedWord(t, w);
    PaddedWord(t', w');
    WhiteIsNoWord(gap);
    WordsCons(t', []);
    WordsCons(gap, [t']);
    WordsCons(t, [gap, t']);
    assert [t'] + [] == [t'] && [gap] + [t'] == [gap, t'] && [t] + [gap, t'] == [t, gap, t'];
    assert Words([t, gap, t']) == [w] + ([] + ([w'] + [])) == [w, w'];
    SpacedTwo(w, w');
  }
}
