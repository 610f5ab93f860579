/** `html_to_text`, the second walker of src/actions/scrape.rs. */
module PlainText {
  import opened Dom
  import opened Wrappers
  import opened Sequences
  import opened VectorKernels
  import T = Text
  import W = Whitespace
  import G = Glyphs
  import M = Markdown
  import D = DomToMarkdown

  /** The texts the walker visits below an element, in document order. */
  function Visited(el: Node): seq<string>
    requires el.Element?
    decreases el, 1
  {
    if TextSkipped(el.name) then [] else VisitedIn(el.children)
  }

  function VisitedAt(n: Node): seq<string>
    decreases n, 2
  {
    match n
    case Element(_, _, _) => Visited(n)
    case Fragment(_) => []
    case Text(t) => [t]
    case Other => []
  }

  function VisitedIn(cs: seq<Node>): seq<string>
    decreases cs, 0
  {
    if cs == [] then [] else VisitedAt(cs[0]) + VisitedIn(cs[1..])
  }

  /** The texts visited in a whole document: the root's text children are not. */
  function VisitedInElements(cs: seq<Node>): seq<string> {
    if cs == [] then [] else (if cs[0].Element? then Visited(cs[0]) else []) + VisitedInElements(cs[1..])
  }

  /** What a text contributes: trimmed, then collapsed. */
  function Word(t: string): string {
    W.Collapse(T.Trim(t), false)
  }

  function Words(ts: seq<string>): seq<string> {
    if ts == [] then [] else (if Word(ts[0]) == "" then [] else [Word(ts[0])]) + Words(ts[1..])
  }

  /** The words joined by single spaces. */
  function Spaced(ws: seq<string>): string {
    Join(ws, " ")
  }

  // ---------------------------------------------------------------------------------------------
  // The walker

  /** The walker's own way of joining: a separator unless the buffer is empty. */
  function Glue(out: string, ws: seq<string>): string
    decreases |ws|
  {
    if ws == [] then out else Glue(if out == "" then ws[0] else out + " " + ws[0], ws[1..])
  }

  lemma {:induction false} GlueConcat(out: string, a: seq<string>, b: seq<string>)
    ensures Glue(out, a + b) == Glue(Glue(out, a), b)
    decreases |a|
  {
    if a == [] {
      assert a + b == b;
    } else {
      assert (a + b)[1..] == a[1..] + b;
      GlueConcat(if out == "" then a[0] else out + " " + a[0], a[1..], b);
    }
  }

  lemma {:induction false} WordsConcat(a: seq<string>, b: seq<string>)
    ensures Words(a + b) == Words(a) + Words(b)
  {
    hide Word;
    if a == [] {
      assert a + b == b;
    } else {
      WordsConcat(a[1..], b);
      assert (a + b)[1..] == a[1..] + b;
      Regroup(if Word(a[0]) == "" then [] else [Word(a[0])], Words(a[1..]), Words(b));
    }
  }

  /** The kernel of the target panics on one of some texts, which are trimmed before. */
  ghost predicate WordTrips(kernel: Kernel, ts: seq<string>) {
    exists t :: t in ts && Stuck(kernel, T.Trim(t))
  }

  lemma WordTripsConcat(kernel: Kernel, a: seq<string>, b: seq<string>)
    ensures WordTrips(kernel, a + b) <==> WordTrips(kernel, a) || WordTrips(kernel, b)
  {
    assert forall t :: t in a + b <==> t in a || t in b;
  }

  /** With the texts `ts` to come, the walk will end in `goal`, or panic if `trips`. */
  ghost predicate Owes(kernel: Kernel, out: string, ts: seq<string>, goal: string, trips: bool) {
    Glue(out, Words(ts)) == goal && WordTrips(kernel, ts) == trips
  }

  /** Visiting the texts `a`, with `b` to come after them. */
  lemma Visit(kernel: Kernel, out: string, a: seq<string>, b: seq<string>, goal: string, trips: bool)
    requires Owes(kernel, out, a + b, goal, trips)
    ensures WordTrips(kernel, a) ==> trips
    ensures !WordTrips(kernel, a) ==> Owes(kernel, Glue(out, Words(a)), b, goal, trips)
  {
    hide Glue;
    hide Words;
    WordsConcat(a, b);
    GlueConcat(out, Words(a), Words(b));
    hide WordTrips;
    WordTripsConcat(kernel, a, b);
  }

  lemma NothingVisited(kernel: Kernel, out: string)
    ensures Owes(kernel, out, [], out, false)
  {
  }

  lemma OwesAtFirst(kernel: Kernel, out: string, ts: seq<string>)
    ensures Owes(kernel, out, ts, Glue(out, Words(ts)), WordTrips(kernel, ts))
  {
  }

  lemma OneChild(kernel: Kernel, out: string, cs: seq<Node>, i: nat, goal: string, trips: bool)
    requires i < |cs| && Owes(kernel, out, VisitedIn(cs[i..]), goal, trips)
    ensures WordTrips(kernel, VisitedAt(cs[i])) ==> trips
    ensures !WordTrips(kernel, VisitedAt(cs[i])) ==>
      Owes(kernel, Glue(out, Words(VisitedAt(cs[i]))), VisitedIn(cs[i + 1..]), goal, trips)
  {
    assert cs[i..][0] == cs[i] && cs[i..][1..] == cs[i + 1..];
    assert VisitedIn(cs[i..]) == VisitedAt(cs[i]) + VisitedIn(cs[i + 1..]);
    hide *;
    Visit(kernel, out, VisitedAt(cs[i]), VisitedIn(cs[i + 1..]), goal, trips);
  }

  lemma NoneLeft(kernel: Kernel, out: string, cs: seq<Node>, goal: string, trips: bool)
    requires Owes(kernel, out, VisitedIn(cs[|cs|..]), goal, trips)
    ensures out == goal && !trips
  {
    assert VisitedIn(cs[|cs|..]) == [];
  }

  method TextWalkElement(kernel: Kernel, el: Node, out: M.Buffer) returns (panicked: bool)
    requires el.Element?
    modifies out
    ensures panicked <==> WordTrips(kernel, Visited(el))
    ensures !panicked ==> out.text == Glue(old(out.text), Words(Visited(el)))
    decreases el, 0
  {
    NothingVisited(kernel, out.text);
    panicked := false;
    if TextSkipped(el.name) {
      return;
    }
    var cs, i := el.children, 0;
    assert cs[0..] == cs;
    assert Visited(el) == VisitedIn(cs);
    ghost var goal, trips := Glue(out.text, Words(VisitedIn(cs))), WordTrips(kernel, VisitedIn(cs));
    hide *;
    OwesAtFirst(kernel, out.text, VisitedIn(cs));
    while i < |cs|
      invariant 0 <= i <= |cs| && !panicked
      invariant Owes(kernel, out.text, VisitedIn(cs[i..]), goal, trips)
    {
      OneChild(kernel, out.text, cs, i, goal, trips);
      panicked := VisitChild(kernel, cs[i], out);
      if panicked {
        return;
      }
      i := i + 1;
    }
    NoneLeft(kernel, out.text, cs, goal, trips);
  }

  lemma OneWord(kernel: Kernel, out: string, t: string)
    ensures
      var w := W.Collapse(T.Trim(t), false);
      Glue(out, Words([t])) == if w == "" then out else if out == "" then w else out + " " + w
    ensures WordTrips(kernel, [t]) <==> Stuck(kernel, T.Trim(t))
  {
    var w := Word(t);
    hide W.Collapse;
    hide T.Trim;
    assert Words([t]) == if w == "" then [] else [w];
  }

  method PushWord(kernel: Kernel, t: string, out: M.Buffer) returns (panicked: bool)
    modifies out
    ensures panicked <==> WordTrips(kernel, [t])
    ensures !panicked ==> out.text == Glue(old(out.text), Words([t]))
  {
    OneWord(kernel, out.text, t);
    hide *;
    var collapsed := CollapseWhitespace(kernel, T.Trim(t));
    if collapsed.Panicked? {
      return true;
    }
    panicked := false;
    var s := collapsed.value;
    if s != "" {
      if out.text != "" {
        out.text := out.text + " ";
      }
      out.text := out.text + s;
    }
  }

  /** The body of the loop over children. */
  method VisitChild(kernel: Kernel, child: Node, out: M.Buffer) returns (panicked: bool)
    modifies out
    ensures panicked <==> WordTrips(kernel, VisitedAt(child))
    ensures !panicked ==> out.text == Glue(old(out.text), Words(VisitedAt(child)))
    decreases child, 1
  {
    hide Visited;
    NothingVisited(kernel, out.text);
    panicked := false;
    if child.Text? {
      panicked := PushWord(kernel, child.text, out);
    } else if child.Element? {
      panicked := TextWalkElement(kernel, child, out);
    }
  }

  lemma OneRoot(kernel: Kernel, out: string, doc: seq<Node>, i: nat, goal: string, trips: bool)
    requires i < |doc| && Owes(kernel, out, VisitedInElements(doc[i..]), goal, trips)
    ensures !doc[i].Element? ==> Owes(kernel, out, VisitedInElements(doc[i + 1..]), goal, trips)
    ensures doc[i].Element? && WordTrips(kernel, Visited(doc[i])) ==> trips
    ensures doc[i].Element? && !WordTrips(kernel, Visited(doc[i])) ==>
      Owes(kernel, Glue(out, Words(Visited(doc[i]))), VisitedInElements(doc[i + 1..]), goal, trips)
  {
    var first := if doc[i].Element? then Visited(doc[i]) else [];
    assert doc[i..][0] == doc[i] && doc[i..][1..] == doc[i + 1..];
    assert VisitedInElements(doc[i..]) == first + VisitedInElements(doc[i + 1..]);
    assert [] + VisitedInElements(doc[i + 1..]) == VisitedInElements(doc[i + 1..]);
    hide *;
    Visit(kernel, out, first, VisitedInElements(doc[i + 1..]), goal, trips);
  }

  lemma NoRootLeft(kernel: Kernel, out: string, doc: seq<Node>, goal: string, trips: bool)
    requires Owes(kernel, out, VisitedInElements(doc[|doc|..]), goal, trips)
    ensures out == goal && !trips
  {
    assert VisitedInElements(doc[|doc|..]) == [];
  }

  // ---------------------------------------------------------------------------------------------
  // What comes out

  /** A word: not empty, no whitespace at its ends, collapsed inside. */
  ghost predicate IsWord(w: string) {
    w != "" && T.Trimmed(w) && W.NoAdjacentWs(w)
  }

  ghost predicate AllWords(ws: seq<string>) {
    forall k :: 0 <= k < |ws| ==> IsWord(ws[k])
  }

  lemma WordIsWord(t: string)
    ensures Word(t) == "" || IsWord(Word(t))
  {
    var s := T.Trim(t);
    T.TrimIsTrimmed(t);
    W.CollapseIsCollapsed(s, false);
    if s != "" { T.CollapseKeepsTrimmed(s, false); }
  }

  lemma {:induction false} WordsAreWords(ts: seq<string>)
    ensures AllWords(Words(ts))
  {
    if ts == [] {
    } else {
      WordsAreWords(ts[1..]);
      WordIsWord(ts[0]);
    }
  }

  lemma {:induction false} GlueOnto(out: string, ws: seq<string>)
    requires out != "" && AllWords(ws)
    ensures Glue(out, ws) == if ws == [] then out else out + " " + Spaced(ws)
    decreases |ws|
  {
    if ws == [] {
    } else {
      GlueOnto(out + " " + ws[0], ws[1..]);
      if |ws| > 1 { Regroup(out + " ", ws[0] + " ", Spaced(ws[1..])); }
    }
  }

  lemma {:induction false} GlueIsJoin(ws: seq<string>)
    requires AllWords(ws)
    ensures Glue("", ws) == Spaced(ws)
  {
    if ws == [] {
    } else {
      GlueOnto(ws[0], ws[1..]);
    }
  }

  lemma AsciiWsIsWhite(c: char)
    ensures W.IsAsciiWs(c as int) ==> T.IsWhite(c)
  {
  }

  lemma JoinTwo(a: string, b: string)
    requires IsWord(a) && IsWord(b)
    ensures IsWord(a + " " + b) && (a + " " + b)[0] == a[0]
  {
    var s, n := a + " " + b, |a|;
    assert s[|s| - 1] == b[|b| - 1];
    AsciiWsIsWhite(a[n - 1]);
    AsciiWsIsWhite(b[0]);
    forall k | 0 <= k < |s| - 1 && W.IsAsciiWs(s[k] as int) ensures !W.IsAsciiWs(s[k + 1] as int) {
      if k < n - 1 {
        assert s[k] == a[k] && s[k + 1] == a[k + 1];
      } else if k > n {
        assert s[k] == b[k - n - 1] && s[k + 1] == b[k - n];
      } else if k == n {
        assert s[k + 1] == b[0];
      }
    }
  }

  /** Joined words have no outer whitespace, so that the final trim changes nothing, and no two
      whitespace characters in a row. */
  lemma {:induction false} JoinIsTidy(ws: seq<string>)
    requires AllWords(ws)
    ensures T.Trimmed(Spaced(ws)) && W.NoAdjacentWs(Spaced(ws))
    ensures ws != [] ==> Spaced(ws) != "" && Spaced(ws)[0] == ws[0][0]
  {
    if ws == [] {
    } else {
      assert IsWord(ws[0]);
      if |ws| > 1 {
        JoinIsTidy(ws[1..]);
        JoinTwo(ws[0], Spaced(ws[1..]));
      }
    }
  }

  /** What the walk comes to is the join, and there is nothing to trim off it. */
  lemma GluedIsJoined(ts: seq<string>)
    ensures Glue("", Words(ts)) == Spaced(Words(ts))
    ensures T.TrimStart(T.TrimEnd(Spaced(Words(ts)))) == Spaced(Words(ts))
  {
    WordsAreWords(ts);
    GlueIsJoin(Words(ts));
    JoinIsTidy(Words(ts));
    T.TrimmedIsFixed(Spaced(Words(ts)));
  }

  /** Cuts the trailing whitespace off by length, then drains the leading whitespace. */
  method TrimInPlace(out: M.Buffer)
    modifies out
    ensures out.text == T.TrimStart(T.TrimEnd(old(out.text)))
  {
    var end := |T.TrimEnd(out.text)|;
    out.text := out.text[..end];
    var start := |out.text| - |T.TrimStart(out.text)|;
    out.text := out.text[start..];
  }

  /** `html_to_text`: `doc` are the children of the root. It panics exactly if the kernel of the target
      does on one of the visited texts, trimmed. */
  method HtmlToText(kernel: Kernel, doc: seq<Node>) returns (r: Outcome<string>)
    ensures r == if WordTrips(kernel, VisitedInElements(doc)) then Panicked
                 else Returned(Spaced(Words(VisitedInElements(doc))))
  {
    var out := new M.Buffer();
    hide *;
    ghost var ts := VisitedInElements(doc);
    ghost var goal, trips := Glue("", Words(ts)), WordTrips(kernel, ts);
    OwesAtFirst(kernel, "", ts);
    GluedIsJoined(ts);
    var i := 0;
    assert doc[0..] == doc;
    while i < |doc|
      invariant 0 <= i <= |doc|
      invariant Owes(kernel, out.text, VisitedInElements(doc[i..]), goal, trips)
    {
      OneRoot(kernel, out.text, doc, i, goal, trips);
      if doc[i].Element? {
        var panicked := TextWalkElement(kernel, doc[i], out);
        if panicked {
          return Panicked;
        }
      }
      i := i + 1;
    }
    NoRootLeft(kernel, out.text, doc, goal, trips);
    TrimInPlace(out);
    r := Returned(out.text);
  }

  lemma {:induction false} JoinLetters(ws: seq<string>)
    ensures T.NonWhite(Spaced(ws)) == D.Letters(ws)
  {
    if ws == [] {
    } else {
      var w, tail := ws[0], ws[1..];
      JoinLetters(tail);
      assert D.Letters(ws) == T.NonWhite(w) + D.Letters(tail);
      if |ws| == 1 {
        assert D.Letters(tail) == [];
      } else {
        assert Spaced(ws) == w + " " + Spaced(tail);
        T.NonWhiteOfWhite(" ");
        hide *;
        T.NonWhiteConcat(w + " ", Spaced(tail));
        T.NonWhiteConcat(w, " ");
      }
    }
  }

  lemma {:induction false} WordsLetters(ts: seq<string>)
    ensures D.Letters(Words(ts)) == D.Letters(ts)
  {
    if ts == [] {
    } else {
      WordsLetters(ts[1..]);
      var w := Word(ts[0]);
      T.TrimKeepsNonWhite(ts[0]);
      T.CollapseKeepsNonWhite(T.Trim(ts[0]), false);
      assert T.NonWhite(w) == T.NonWhite(ts[0]);
      hide Word;
      D.LettersConcat(if w == "" then [] else [w], Words(ts[1..]));
      D.LettersOfOne(w);
      D.NoContent();
      assert w == "" ==> T.NonWhite(w) == [];
    }
  }

  /** The plain text of a document is tidy, and its non-whitespace characters are those of the
      visited texts, in order and each once. */
  lemma PlainTextMeaning(doc: seq<Node>)
    ensures
      var text := Spaced(Words(VisitedInElements(doc)));
      T.Trimmed(text) && W.NoAdjacentWs(text) && T.NonWhite(text) == D.Letters(VisitedInElements(doc))
  {
    var ts := VisitedInElements(doc);
    WordsAreWords(ts);
    JoinIsTidy(Words(ts));
    JoinLetters(Words(ts));
    WordsLetters(ts);
  }
}
