/** The Markdown compiler of src/actions/scrape.rs. `Emit` says what one element appends; the methods
    are the walkers themselves, writing into a shared buffer. */
module Markdown {
  import opened Dom
  import opened Glyphs
  import opened Sequences
  import T = Text
  import opened Wrappers
  import opened VectorKernels
  import Whitespace

  // ---------------------------------------------------------------------------------------------
  // Lines, as `str::lines` cuts them

  function NextNl(cs: string): (n: nat)
    ensures n <= |cs| && (n < |cs| ==> cs[n] == '\n')
    ensures forall k :: 0 <= k < n ==> cs[k] != '\n'
  {
    if cs == [] || cs[0] == '\n' then 0 else 1 + NextNl(cs[1..])
  }

  /** How much of a terminated line is kept: not a carriage return before the newline. */
  function LineLength(cs: string): (n: nat)
    ensures n <= |cs|
  {
    if cs != [] && cs[|cs| - 1] == '\r' then |cs| - 1 else |cs|
  }

  ghost function Lines(gs: seq<Glyph>): seq<seq<Glyph>>
    decreases |gs|
  {
    if gs == [] then []
    else
      var i := NextNl(Erase(gs));
      if i == |gs| then [gs] else [gs[..LineLength(Erase(gs[..i]))]] + Lines(gs[i + 1..])
  }

  ghost function Quote(ls: seq<seq<Glyph>>): seq<Glyph> {
    if ls == [] then [] else Markup("> ") + ls[0] + Markup("\n") + Quote(ls[1..])
  }

  // ---------------------------------------------------------------------------------------------
  // What is written. Everything is a function of the element, the list depth and one bit of the
  // buffer: whether it ends in a newline.

  predicate EndsNl(cs: string) {
    cs != [] && cs[|cs| - 1] == '\n'
  }

  /** The same bit after `gs` have been appended. */
  ghost function NlAfter(nl: bool, gs: seq<Glyph>): bool {
    if gs == [] then nl else gs[|gs| - 1].c == '\n'
  }

  function Repeat(s: string, n: nat): string {
    if n == 0 then "" else s + Repeat(s, n - 1)
  }

  function Digits(n: nat): (s: string)
    ensures s != []
  {
    var d := [((n % 10) + ('0' as int)) as char];
    if n < 10 then d else Digits(n / 10) + d
  }

  /** Ends a block: the rest of the line, if there is one, and an empty line. */
  ghost function CloseBlock(gs: seq<Glyph>, nl: bool): seq<Glyph> {
    gs + Markup(if NlAfter(nl, gs) then "\n" else "\n\n")
  }

  /** `code` and `kbd`: the direct texts, trimmed and joined. */
  ghost function EmitTrimmed(cs: seq<Node>): seq<Glyph> {
    if cs == [] then [] else (if cs[0].Text? then Ink(T.Trim(cs[0].text)) else []) + EmitTrimmed(cs[1..])
  }

  ghost function EmitVerbatim(ts: seq<string>): seq<Glyph> {
    if ts == [] then [] else Ink(ts[0]) + EmitVerbatim(ts[1..])
  }

  ghost function EmitPre(ts: seq<string>): seq<Glyph> {
    var body := EmitVerbatim(ts);
    Markup("```\n") + body + (if NlAfter(true, body) then Markup("```\n\n") else Markup("\n```\n\n"))
  }

  ghost function Emit(el: Node, nl: bool, depth: nat): seq<Glyph>
    requires el.Element?
    decreases el, 1
  {
    var cs := el.children;
    match KindOf(el.name)
    case Heading(level) => CloseBlock(Markup(Repeat("#", level) + " ") + EmitChildren(cs, false, depth), nl)
    case Paragraph => CloseBlock(EmitChildren(cs, nl, depth), nl)
    case Break => Markup("\n")
    case Rule => Markup("---\n\n")
    case Blockquote => Quote(Lines(EmitChildren(cs, false, depth))) + Markup("\n")
    case Preformatted => EmitPre(AllTexts(cs))
    case CodeSpan => Markup("`") + EmitTrimmed(cs) + Markup("`")
    case UnorderedList => CloseBlock(EmitElements(cs, nl, depth + 1), nl)
    case OrderedList => EmitItems(cs, depth + 1, 1) + Markup("\n")
    case ListItem =>
      Markup(Repeat("  ", if depth == 0 then 0 else depth - 1) + "- ") + EmitChildren(cs, false, depth) + Markup("\n")
    case Anchor => Markup("[") + EmitChildren(cs, false, depth) + Markup("](" + Attr(el.attrs, "href") + ")")
    case Image => Markup("![" + Attr(el.attrs, "alt") + "](" + Attr(el.attrs, "src") + ")")
    case Wrapped(open, close) => Markup(open) + EmitChildren(cs, false, depth) + Markup(close)
    case Skipped => []
    case Frame => var src := Attr(el.attrs, "src"); if src == "" then [] else Markup("[iframe: " + src + "]")
    case Cell => EmitChildren(cs, nl, depth) + Markup(" ")
    case Line => EmitChildren(cs, nl, depth) + Markup("\n")
    case Plain => EmitChildren(cs, nl, depth)
  }

  /** A text node, collapsed; one that is empty or a lone space is dropped. */
  ghost function EmitText(t: string): seq<Glyph> {
    var s := Whitespace.Collapse(t, false);
    if s == "" || s == " " then [] else Ink(s)
  }

  ghost function EmitNode(n: Node, nl: bool, depth: nat): seq<Glyph>
    decreases n, 2
  {
    match n
    case Element(_, _, _) => Emit(n, nl, depth)
    case Fragment(_) => []
    case Text(t) => EmitText(t)
    case Other => []
  }

  ghost function EmitChildren(cs: seq<Node>, nl: bool, depth: nat): seq<Glyph>
    decreases cs, 0
  {
    if cs == [] then []
    else var first := EmitNode(cs[0], nl, depth); first + EmitChildren(cs[1..], NlAfter(nl, first), depth)
  }

  /** The element children only, as in `ul`. */
  ghost function EmitElements(cs: seq<Node>, nl: bool, depth: nat): seq<Glyph>
    decreases cs, 0
  {
    if cs == [] then []
    else
      var first := if cs[0].Element? then Emit(cs[0], nl, depth) else [];
      first + EmitElements(cs[1..], NlAfter(nl, first), depth)
  }

  /** The items of an `ol`: the children of each element child, whatever its name, numbered from `idx`. */
  ghost function EmitItems(cs: seq<Node>, depth: nat, idx: nat): seq<Glyph>
    decreases cs, 0
  {
    if cs == [] then []
    else if !cs[0].Element? then EmitItems(cs[1..], depth, idx)
    else EmitItem(cs[0], depth, idx) + EmitItems(cs[1..], depth, idx + 1)
  }

  ghost function EmitItem(li: Node, depth: nat, idx: nat): seq<Glyph>
    requires li.Element?
    decreases li, 1
  {
    Markup(Repeat("  ", if depth == 0 then 0 else depth - 1) + Digits(idx) + ". ")
    + EmitChildren(li.children, false, depth)
    + Markup("\n")
  }

  // ---------------------------------------------------------------------------------------------
  // Which texts are collapsed on the way, and so can make the conversion panic

  /** The texts an element hands to `collapse_whitespace`: those shown outside `pre`, `code` and `kbd`. */
  function Collapsed(el: Node): set<string>
    requires el.Element?
    decreases el, 1
  {
    match KindOf(el.name)
    case Break => {}
    case Rule => {}
    case Image => {}
    case Frame => {}
    case Skipped => {}
    case Preformatted => {}
    case CodeSpan => {}
    case UnorderedList => CollapsedInElements(el.children)
    case OrderedList => CollapsedInItems(el.children)
    case _ => CollapsedIn(el.children)
  }

  function CollapsedAt(n: Node): set<string>
    decreases n, 2
  {
    match n
    case Element(_, _, _) => Collapsed(n)
    case Fragment(_) => {}
    case Text(t) => {t}
    case Other => {}
  }

  function CollapsedIn(cs: seq<Node>): set<string>
    decreases cs, 0
  {
    if cs == [] then {} else CollapsedAt(cs[0]) + CollapsedIn(cs[1..])
  }

  function CollapsedInElements(cs: seq<Node>): set<string>
    decreases cs, 0
  {
    if cs == [] then {} else (if cs[0].Element? then Collapsed(cs[0]) else {}) + CollapsedInElements(cs[1..])
  }

  function CollapsedInItems(cs: seq<Node>): set<string>
    decreases cs, 0
  {
    if cs == [] then {} else (if cs[0].Element? then CollapsedIn(cs[0].children) else {}) + CollapsedInItems(cs[1..])
  }

  /** The kernel of the target panics on one of some texts. */
  ghost predicate Trips(kernel: Kernel, ts: set<string>) {
    exists t :: t in ts && Stuck(kernel, t)
  }

  lemma NothingTrips(kernel: Kernel)
    ensures !Trips(kernel, {})
  {
  }

  lemma OneTrips(kernel: Kernel, t: string)
    ensures Trips(kernel, {t}) <==> Stuck(kernel, t)
  {
  }

  lemma EitherTrips(kernel: Kernel, a: set<string>, b: set<string>)
    ensures Trips(kernel, a + b) <==> Trips(kernel, a) || Trips(kernel, b)
  {
  }

  /** Child by child, for each of the three loops over children. */
  lemma TripsStep(kernel: Kernel, cs: seq<Node>, i: nat)
    requires i < |cs|
    ensures Trips(kernel, CollapsedIn(cs[i..]))
       <==> Trips(kernel, CollapsedAt(cs[i])) || Trips(kernel, CollapsedIn(cs[i + 1..]))
    ensures Trips(kernel, CollapsedInElements(cs[i..]))
       <==> (cs[i].Element? && Trips(kernel, Collapsed(cs[i]))) || Trips(kernel, CollapsedInElements(cs[i + 1..]))
    ensures Trips(kernel, CollapsedInItems(cs[i..]))
       <==> (cs[i].Element? && Trips(kernel, CollapsedIn(cs[i].children)))
            || Trips(kernel, CollapsedInItems(cs[i + 1..]))
  {
    var rest := cs[i + 1..];
    assert cs[i..][0] == cs[i] && cs[i..][1..] == rest;
    hide Trips;
    NothingTrips(kernel);
    EitherTrips(kernel, CollapsedAt(cs[i]), CollapsedIn(rest));
    EitherTrips(kernel, if cs[i].Element? then Collapsed(cs[i]) else {}, CollapsedInElements(rest));
    EitherTrips(kernel, if cs[i].Element? then CollapsedIn(cs[i].children) else {}, CollapsedInItems(rest));
  }

  // ---------------------------------------------------------------------------------------------
  // The walkers

  // Where a panic of the kernel unwinds, it passes through all of them, which `panicked` stands for; where
  // it aborts, that is the moment the process ends.

  /** `after` is `before` with the characters of `gs` appended. */
  ghost predicate Appends(before: string, gs: seq<Glyph>, after: string) {
    after == before + Erase(gs)
  }

  /** The buffer grew by what `Emit` says. */
  ghost predicate Wrote(el: Node, before: string, depth: nat, after: string)
    requires el.Element?
  {
    Appends(before, Emit(el, EndsNl(before), depth), after)
  }

  lemma AppendsBoth(a: string, g: seq<Glyph>, b: string, h: seq<Glyph>, c: string)
    requires Appends(a, g, b) && Appends(b, h, c)
    ensures Appends(a, g + h, c)
  {
    EraseConcat(g, h);
    Regroup(a, Erase(g), Erase(h));
  }

  /** A growing `String`. The ghost arguments of the pushes account for it: since it read `before`,
      `gs` have been appended. */
  class Buffer {
    var text: string

    constructor ()
      ensures text == ""
    {
      text := "";
    }

    method Push(s: string, ghost piece: seq<Glyph>, ghost before: string, ghost gs: seq<Glyph>)
      returns (ghost gs': seq<Glyph>)
      requires Appends(before, gs, text) && Erase(piece) == s
      modifies this
      ensures text == old(text) + s && gs' == gs + piece && Appends(before, gs', text)
    {
      AppendsBoth(before, gs, text, piece, text + s);
      text := text + s;
      gs' := gs + piece;
    }

    method PushMarkup(s: string, ghost before: string, ghost gs: seq<Glyph>) returns (ghost gs': seq<Glyph>)
      requires Appends(before, gs, text)
      modifies this
      ensures text == old(text) + s && gs' == gs + Markup(s) && Appends(before, gs', text)
    {
      EraseTag(s, false);
      gs' := Push(s, Markup(s), before, gs);
    }

    method PushText(s: string, ghost before: string, ghost gs: seq<Glyph>) returns (ghost gs': seq<Glyph>)
      requires Appends(before, gs, text)
      modifies this
      ensures text == old(text) + s && gs' == gs + Ink(s) && Appends(before, gs', text)
    {
      EraseTag(s, true);
      gs' := Push(s, Ink(s), before, gs);
    }
  }

  class Counter {
    var n: nat

    constructor ()
      ensures n == 0
    {
      n := 0;
    }
  }

  lemma AppendsNothing(s: string)
    ensures Appends(s, [], s)
  {
  }

  lemma NlOfAppended(a: string, g: seq<Glyph>, b: string)
    requires Appends(a, g, b)
    ensures EndsNl(b) == NlAfter(EndsNl(a), g)
  {
  }

  lemma NothingBefore(gs: seq<Glyph>)
    ensures [] + gs == gs
  {
  }

  lemma MarkupConcat(a: string, b: string)
    ensures Markup(a + b) == Markup(a) + Markup(b)
  {
  }

  lemma {:induction false} RepeatMore(s: string, n: nat)
    ensures Repeat(s, n) + s == Repeat(s, n + 1)
  {
    if n == 0 {
    } else {
      RepeatMore(s, n - 1);
      Regroup(s, Repeat(s, n - 1), s);
    }
  }

  lemma LastOfMarkup(s: string)
    requires s != ""
    ensures Markup(s) != [] && Markup(s)[|Markup(s)| - 1].c == s[|s| - 1]
  {
  }

  lemma NoRepeats(s: string)
    ensures Repeat(s, 0) == "" && Markup("") == []
  {
  }

  /** Ends the line if it is open, then writes an empty one. */
  method EndBlock(md: Buffer, ghost before: string, ghost gs: seq<Glyph>) returns (ghost gs': seq<Glyph>)
    requires Appends(before, gs, md.text)
    modifies md
    ensures gs' == CloseBlock(gs, EndsNl(before)) && Appends(before, gs', md.text)
  {
    NlOfAppended(before, gs, md.text);
    gs' := gs;
    if !EndsNl(md.text) {
      gs' := md.PushMarkup("\n", before, gs');
      MarkupConcat("\n", "\n");
    }
    gs' := md.PushMarkup("\n", before, gs');
    assert "\n" + "\n" == "\n\n";
  }

  method WalkText(kernel: Kernel, t: string, md: Buffer) returns (panicked: bool)
    modifies md
    ensures panicked <==> Stuck(kernel, t)
    ensures !panicked ==> Appends(old(md.text), EmitText(t), md.text)
  {
    hide Stuck;
    ghost var before := md.text;
    AppendsNothing(before);
    var collapsed := CollapseWhitespace(kernel, t);
    if collapsed.Panicked? {
      return true;
    }
    panicked := false;
    var s := collapsed.value;
    if s != "" && s != " " {
      ghost var gs := md.PushText(s, before, []);
      NothingBefore(Ink(s));
    }
  }

  method WalkChildren(kernel: Kernel, el: Node, md: Buffer, depth: Counter) returns (panicked: bool)
    requires el.Element?
    modifies md, depth
    ensures panicked <==> Trips(kernel, CollapsedIn(el.children))
    ensures !panicked ==> depth.n == old(depth.n)
    ensures !panicked ==> Appends(old(md.text), EmitChildren(el.children, EndsNl(old(md.text)), old(depth.n)), md.text)
    decreases el, 0, 0
  {
    hide Emit;
    hide EmitText;
    hide Appends;
    hide EndsNl;
    hide NlAfter;
    hide Trips;
    hide Collapsed;
    ghost var before := md.text;
    ghost var done: seq<Glyph> := [];
    AppendsNothing(before);
    var cs := el.children;
    ghost var goal := EmitChildren(cs, EndsNl(before), depth.n);
    NothingBefore(goal);
    ghost var trips := Trips(kernel, CollapsedIn(cs));
    var i := 0;
    assert cs[0..] == cs;
    while i < |cs|
      invariant 0 <= i <= |cs| && depth.n == old(depth.n)
      invariant Appends(before, done, md.text)
      invariant done + EmitChildren(cs[i..], EndsNl(md.text), depth.n) == goal
      invariant trips == Trips(kernel, CollapsedIn(cs[i..]))
    {
      var child := cs[i];
      ghost var mid := md.text;
      ghost var first := EmitNode(child, EndsNl(mid), depth.n);
      assert cs[i..][0] == child && cs[i..][1..] == cs[i + 1..];
      Regroup(done, first, EmitChildren(cs[i + 1..], NlAfter(EndsNl(mid), first), depth.n));
      TripsStep(kernel, cs, i);
      if child.Element? {
        panicked := WalkElement(kernel, child, md, depth);
        if panicked {
          return;
        }
      } else if child.Text? {
        OneTrips(kernel, child.text);
        panicked := WalkText(kernel, child.text, md);
        if panicked {
          return;
        }
      } else {
        NothingTrips(kernel);
        AppendsNothing(mid);
      }
      AppendsBoth(before, done, mid, first, md.text);
      NlOfAppended(mid, first, md.text);
      done := done + first;
      i := i + 1;
    }
    NothingTrips(kernel);
    assert done + [] == done;
    panicked := false;
  }

  // One method for each arm of `walk_element`'s match.

  method WalkHeading(kernel: Kernel, el: Node, level: nat, md: Buffer, depth: Counter) returns (panicked: bool)
    requires el.Element? && KindOf(el.name) == Heading(level)
    modifies md, depth
    ensures panicked <==> Trips(kernel, Collapsed(el))
    ensures !panicked ==> depth.n == old(depth.n) && Wrote(el, old(md.text), old(depth.n), md.text)
    decreases el, 1
  {
    hide KindOf;
    hide EmitChildren;
    hide Appends;
    hide Trips;
    hide CollapsedIn;
    hide EndsNl;
    hide Repeat;
    ghost var before, gs := md.text, [];
    AppendsNothing(before);
    NoRepeats("#");
    var k := 0;
    while k < level
      invariant k <= level && Appends(before, gs, md.text) && gs == Markup(Repeat("#", k)) && depth.n == old(depth.n)
    {
      gs := md.PushMarkup("#", before, gs);
      MarkupConcat(Repeat("#", k), "#");
      RepeatMore("#", k);
      k := k + 1;
    }
    gs := md.PushMarkup(" ", before, gs);
    MarkupConcat(Repeat("#", level), " ");
    panicked, gs := WalkInside(kernel, el, md, depth, before, gs);
    if panicked {
      return;
    }
    gs := EndBlock(md, before, gs);
  }

  /** `walk_children` after something that does not end in a newline was pushed. */
  method WalkInside(kernel: Kernel, el: Node, md: Buffer, depth: Counter, ghost before: string, ghost gs: seq<Glyph>)
    returns (panicked: bool, ghost gs': seq<Glyph>)
    requires el.Element? && Appends(before, gs, md.text) && gs != [] && gs[|gs| - 1].c != '\n'
    modifies md, depth
    ensures panicked <==> Trips(kernel, CollapsedIn(el.children))
    ensures !panicked ==> depth.n == old(depth.n)
    ensures !panicked ==> gs' == gs + EmitChildren(el.children, false, old(depth.n)) && Appends(before, gs', md.text)
    decreases el, 0, 1
  {
    NlOfAppended(before, gs, md.text);
    ghost var mid := md.text;
    panicked := WalkChildren(kernel, el, md, depth);
    gs' := gs;
    if panicked {
      return;
    }
    gs' := gs + EmitChildren(el.children, false, depth.n);
    AppendsBoth(before, gs, mid, EmitChildren(el.children, false, depth.n), md.text);
  }

  method WalkParagraph(kernel: Kernel, el: Node, md: Buffer, depth: Counter) returns (panicked: bool)
    requires el.Element? && KindOf(el.name) == Paragraph
    modifies md, depth
    ensures panicked <==> Trips(kernel, Collapsed(el))
    ensures !panicked ==> depth.n == old(depth.n) && Wrote(el, old(md.text), old(depth.n), md.text)
    decreases el, 1
  {
    hide KindOf;
    hide EmitChildren;
    hide Appends;
    hide Trips;
    hide CollapsedIn;
    hide EndsNl;
    hide Repeat;
    ghost var before := md.text;
    panicked := WalkChildren(kernel, el, md, depth);
    if panicked {
      return;
    }
    ghost var gs := EndBlock(md, before, EmitChildren(el.children, EndsNl(before), depth.n));
  }

  lemma EraseSlice(gs: seq<Glyph>, i: nat, j: nat)
    requires i <= j <= |gs|
    ensures Erase(gs[i..j]) == Erase(gs)[i..j]
    ensures Erase(gs[i..]) == Erase(gs)[i..]
  {
  }

  lemma QuoteCons(l: seq<Glyph>, ls: seq<seq<Glyph>>)
    ensures Quote([l] + ls) == Markup("> ") + l + Markup("\n") + Quote(ls)
  {
    assert ([l] + ls)[1..] == ls;
  }

  /** One turn of the line loop. */
  lemma QuoteStep(left: seq<Glyph>, i: nat, gline: seq<Glyph>, after: seq<Glyph>, done: seq<Glyph>)
    requires left != [] && i == NextNl(Erase(left))
    requires if i == |left| then gline == left && after == []
             else gline == left[..LineLength(Erase(left[..i]))] && after == left[i + 1..]
    ensures done + Quote(Lines(left)) == done + Markup("> ") + gline + Markup("\n") + Quote(Lines(after))
  {
    assert Lines(left) == [gline] + Lines(after) by {
      if i == |left| { assert Lines(after) == []; }
    }
    hide NextNl;
    hide LineLength;
    QuoteCons(gline, Lines(after));
    hide Lines;
    hide Quote;
    var m, n, q := Markup("> "), Markup("\n"), Quote(Lines(after));
    hide Tag;
    Regroup(done, m + gline + n, q);
    Regroup(done, m + gline, n);
    Regroup(done, m, gline);
  }

  /** The loop over `inner.lines()`. */
  method PushQuoted(inner: string, md: Buffer, ghost body: seq<Glyph>) returns (ghost done: seq<Glyph>)
    requires inner == Erase(body)
    modifies md
    ensures done == Quote(Lines(body)) && Appends(old(md.text), done, md.text)
  {
    hide Appends;
    hide Erase;
    hide NextNl;
    hide LineLength;
    ghost var before := md.text;
    AppendsNothing(before);
    done := [];
    var rest := inner;
    ghost var left := body;
    NothingBefore(Quote(Lines(body)));
    while rest != ""
      invariant rest == Erase(left) && Appends(before, done, md.text)
      invariant done + Quote(Lines(left)) == Quote(Lines(body))
      decreases |rest|
    {
      var i := NextNl(rest);
      var line, next;
      ghost var gline: seq<Glyph>, after: seq<Glyph>;
      if i == |rest| {
        line, next := rest, "";
        gline, after := left, [];
      } else {
        line, next := rest[..LineLength(rest[..i])], rest[i + 1..];
        gline, after := left[..LineLength(rest[..i])], left[i + 1..];
        EraseSlice(left, 0, i);
        EraseSlice(left, 0, LineLength(rest[..i]));
        EraseSlice(left, i + 1, |left|);
      }
      QuoteStep(left, i, gline, after, done);
      done := md.PushMarkup("> ", before, done);
      done := md.Push(line, gline, before, done);
      done := md.PushMarkup("\n", before, done);
      rest, left := next, after;
    }
    assert done + [] == done;
  }

  method WalkBlockquote(kernel: Kernel, el: Node, md: Buffer, depth: Counter) returns (panicked: bool)
    requires el.Element? && KindOf(el.name) == Blockquote
    modifies md, depth
    ensures panicked <==> Trips(kernel, Collapsed(el))
    ensures !panicked ==> depth.n == old(depth.n) && Wrote(el, old(md.text), old(depth.n), md.text)
    decreases el, 1
  {
    var inner := new Buffer();
    panicked := WalkChildren(kernel, el, inner, depth);
    if panicked {
      return;
    }
    ghost var body := EmitChildren(el.children, false, depth.n);
    assert inner.text == Erase(body) by {
      assert !EndsNl("");
      assert "" + Erase(body) == Erase(body);
    }
    hide KindOf;
    hide EmitChildren;
    hide Appends;
    hide Trips;
    hide CollapsedIn;
    hide EndsNl;
    hide Repeat;
    ghost var before := md.text;
    ghost var gs := PushQuoted(inner.text, md, body);
    gs := md.PushMarkup("\n", before, gs);
  }

  /** After the opening fence and the text, whether the line is open depends on the text alone. */
  lemma PreIsOpen(ts: seq<string>, nl: bool)
    ensures
      var gs := Markup("```\n") + EmitVerbatim(ts);
      EmitPre(ts) == (if NlAfter(nl, gs) then gs else gs + Markup("\n")) + Markup("```\n\n")
  {
    hide EmitVerbatim;
    var gs := Markup("```\n") + EmitVerbatim(ts);
    assert NlAfter(nl, gs) == NlAfter(true, EmitVerbatim(ts));
    Regroup(gs, Markup("\n"), Markup("```\n\n"));
    MarkupConcat("\n", "```\n\n");
    assert "\n" + "```\n\n" == "\n```\n\n";
  }

  method PushVerbatim(ts: seq<string>, md: Buffer, ghost before: string, ghost gs: seq<Glyph>)
    returns (ghost gs': seq<Glyph>)
    requires Appends(before, gs, md.text)
    modifies md
    ensures gs' == gs + EmitVerbatim(ts) && Appends(before, gs', md.text)
  {
    hide Appends;
    gs' := gs;
    var i := 0;
    assert ts[0..] == ts;
    while i < |ts|
      invariant 0 <= i <= |ts| && Appends(before, gs', md.text)
      invariant gs' + EmitVerbatim(ts[i..]) == gs + EmitVerbatim(ts)
    {
      assert ts[i..][0] == ts[i] && ts[i..][1..] == ts[i + 1..];
      Regroup(gs', Ink(ts[i]), EmitVerbatim(ts[i + 1..]));
      gs' := md.PushText(ts[i], before, gs');
      i := i + 1;
    }
    assert gs' + [] == gs';
  }

  method PushOnly(s: string, md: Buffer)
    modifies md
    ensures Appends(old(md.text), Markup(s), md.text)
  {
    hide Appends;
    AppendsNothing(md.text);
    ghost var gs := md.PushMarkup(s, md.text, []);
    NothingBefore(Markup(s));
  }

  method WalkPre(el: Node, md: Buffer)
    requires el.Element? && KindOf(el.name) == Preformatted
    modifies md
    ensures Appends(old(md.text), EmitPre(AllTexts(el.children)), md.text)
  {
    hide *;
    ghost var before := md.text;
    PushOnly("```\n", md);
    var ts := AllTexts(el.children);
    ghost var gs := PushVerbatim(ts, md, before, Markup("```\n"));
    NlOfAppended(before, gs, md.text);
    PreIsOpen(ts, EndsNl(before));
    if !EndsNl(md.text) {
      gs := md.PushMarkup("\n", before, gs);
    }
    gs := md.PushMarkup("```\n\n", before, gs);
  }

  method PushTrimmed(cs: seq<Node>, md: Buffer, ghost before: string, ghost gs: seq<Glyph>)
    returns (ghost gs': seq<Glyph>)
    requires Appends(before, gs, md.text)
    modifies md
    ensures gs' == gs + EmitTrimmed(cs) && Appends(before, gs', md.text)
  {
    hide Appends;
    gs' := gs;
    var i := 0;
    assert cs[0..] == cs;
    while i < |cs|
      invariant 0 <= i <= |cs| && Appends(before, gs', md.text)
      invariant gs' + EmitTrimmed(cs[i..]) == gs + EmitTrimmed(cs)
    {
      assert cs[i..][0] == cs[i] && cs[i..][1..] == cs[i + 1..];
      if cs[i].Text? {
        Regroup(gs', Ink(T.Trim(cs[i].text)), EmitTrimmed(cs[i + 1..]));
        gs' := md.PushText(T.Trim(cs[i].text), before, gs');
      } else {
        NothingBefore(EmitTrimmed(cs[i + 1..]));
      }
      i := i + 1;
    }
    assert gs' + [] == gs';
  }

  method WalkCode(el: Node, md: Buffer)
    requires el.Element? && KindOf(el.name) == CodeSpan
    modifies md
    ensures forall depth :: Wrote(el, old(md.text), depth, md.text)
  {
    hide KindOf;
    hide Appends;
    ghost var before, gs := md.text, [];
    AppendsNothing(before);
    gs := md.PushMarkup("`", before, gs);
    NothingBefore(Markup("`"));
    gs := PushTrimmed(el.children, md, before, gs);
    gs := md.PushMarkup("`", before, gs);
  }

  method WalkUnordered(kernel: Kernel, el: Node, md: Buffer, depth: Counter) returns (panicked: bool)
    requires el.Element? && KindOf(el.name) == UnorderedList
    modifies md, depth
    ensures panicked <==> Trips(kernel, Collapsed(el))
    ensures !panicked ==> depth.n == old(depth.n) && Wrote(el, old(md.text), old(depth.n), md.text)
    decreases el, 1
  {
    hide KindOf;
    hide EmitElements;
    hide Appends;
    hide Trips;
    hide CollapsedInElements;
    hide EndsNl;
    ghost var before := md.text;
    depth.n := depth.n + 1;
    ghost var gs;
    panicked, gs := PushElements(kernel, el, md, depth);
    if panicked {
      return;
    }
    depth.n := depth.n - 1;
    gs := EndBlock(md, before, gs);
  }

  method PushElements(kernel: Kernel, el: Node, md: Buffer, depth: Counter)
    returns (panicked: bool, ghost done: seq<Glyph>)
    requires el.Element?
    modifies md, depth
    ensures panicked <==> Trips(kernel, CollapsedInElements(el.children))
    ensures !panicked ==> depth.n == old(depth.n)
    ensures !panicked ==> done == EmitElements(el.children, EndsNl(old(md.text)), old(depth.n))
    ensures !panicked ==> Appends(old(md.text), done, md.text)
    decreases el, 0
  {
    hide Emit;
    hide Appends;
    hide EndsNl;
    hide NlAfter;
    hide Trips;
    hide Collapsed;
    ghost var before := md.text;
    done := [];
    AppendsNothing(before);
    var cs := el.children;
    ghost var goal := EmitElements(cs, EndsNl(before), depth.n);
    NothingBefore(goal);
    ghost var trips := Trips(kernel, CollapsedInElements(cs));
    var i := 0;
    assert cs[0..] == cs;
    while i < |cs|
      invariant 0 <= i <= |cs| && depth.n == old(depth.n)
      invariant Appends(before, done, md.text)
      invariant done + EmitElements(cs[i..], EndsNl(md.text), depth.n) == goal
      invariant trips == Trips(kernel, CollapsedInElements(cs[i..]))
    {
      var child := cs[i];
      ghost var mid := md.text;
      ghost var first := if child.Element? then Emit(child, EndsNl(mid), depth.n) else [];
      assert cs[i..][0] == child && cs[i..][1..] == cs[i + 1..];
      Regroup(done, first, EmitElements(cs[i + 1..], NlAfter(EndsNl(mid), first), depth.n));
      TripsStep(kernel, cs, i);
      if child.Element? {
        panicked := WalkElement(kernel, child, md, depth);
        if panicked {
          return;
        }
      } else {
        AppendsNothing(mid);
      }
      AppendsBoth(before, done, mid, first, md.text);
      NlOfAppended(mid, first, md.text);
      done := done + first;
      i := i + 1;
    }
    NothingTrips(kernel);
    assert done + [] == done;
    panicked := false;
  }

  method WalkOrdered(kernel: Kernel, el: Node, md: Buffer, depth: Counter) returns (panicked: bool)
    requires el.Element? && KindOf(el.name) == OrderedList
    modifies md, depth
    ensures panicked <==> Trips(kernel, Collapsed(el))
    ensures !panicked ==> depth.n == old(depth.n) && Wrote(el, old(md.text), old(depth.n), md.text)
    decreases el, 1
  {
    hide KindOf;
    hide EmitItems;
    hide Appends;
    hide Trips;
    hide CollapsedInItems;
    hide EndsNl;
    ghost var before := md.text;
    depth.n := depth.n + 1;
    ghost var gs;
    panicked, gs := PushItems(kernel, el, md, depth);
    if panicked {
      return;
    }
    depth.n := depth.n - 1;
    gs := md.PushMarkup("\n", before, gs);
  }

  method PushItems(kernel: Kernel, el: Node, md: Buffer, depth: Counter)
    returns (panicked: bool, ghost done: seq<Glyph>)
    requires el.Element?
    modifies md, depth
    ensures panicked <==> Trips(kernel, CollapsedInItems(el.children))
    ensures !panicked ==> depth.n == old(depth.n)
    ensures !panicked ==> done == EmitItems(el.children, old(depth.n), 1) && Appends(old(md.text), done, md.text)
    decreases el, 0, 2
  {
    hide EmitItem;
    hide Appends;
    hide Trips;
    hide CollapsedIn;
    ghost var before := md.text;
    done := [];
    AppendsNothing(before);
    var cs := el.children;
    ghost var goal := EmitItems(cs, depth.n, 1);
    NothingBefore(goal);
    ghost var trips := Trips(kernel, CollapsedInItems(cs));
    var i, idx := 0, 1;
    assert cs[0..] == cs;
    while i < |cs|
      invariant 0 <= i <= |cs| && depth.n == old(depth.n) && idx >= 1
      invariant Appends(before, done, md.text)
      invariant done + EmitItems(cs[i..], depth.n, idx) == goal
      invariant trips == Trips(kernel, CollapsedInItems(cs[i..]))
    {
      var child := cs[i];
      assert cs[i..][0] == child && cs[i..][1..] == cs[i + 1..];
      TripsStep(kernel, cs, i);
      if child.Element? {
        Regroup(done, EmitItem(child, depth.n, idx), EmitItems(cs[i + 1..], depth.n, idx + 1));
        ghost var mid := md.text;
        panicked := PushItem(kernel, child, idx, md, depth);
        if panicked {
          return;
        }
        AppendsBoth(before, done, mid, EmitItem(child, depth.n, idx), md.text);
        done := done + EmitItem(child, depth.n, idx);
        idx := idx + 1;
      }
      i := i + 1;
    }
    NothingTrips(kernel);
    assert done + [] == done;
    panicked := false;
  }

  method PushItem(kernel: Kernel, li: Node, idx: nat, md: Buffer, depth: Counter) returns (panicked: bool)
    requires li.Element?
    modifies md, depth
    ensures panicked <==> Trips(kernel, CollapsedIn(li.children))
    ensures !panicked ==> depth.n == old(depth.n)
    ensures !panicked ==> Appends(old(md.text), EmitItem(li, old(depth.n), idx), md.text)
    decreases li, 1
  {
    hide EmitChildren;
    hide Appends;
    hide Trips;
    hide CollapsedIn;
    hide Repeat;
    hide Digits;
    ghost var before, gs := md.text, [];
    AppendsNothing(before);
    var indent := Repeat("  ", if depth.n == 0 then 0 else depth.n - 1);
    gs := md.PushMarkup(indent, before, gs);
    gs := md.PushMarkup(Digits(idx) + ". ", before, gs);
    NothingBefore(Markup(indent));
    MarkupConcat(indent, Digits(idx) + ". ");
    Regroup(indent, Digits(idx), ". ");
    panicked, gs := WalkInside(kernel, li, md, depth, before, gs);
    if panicked {
      return;
    }
    gs := md.PushMarkup("\n", before, gs);
  }

  method WalkListItem(kernel: Kernel, el: Node, md: Buffer, depth: Counter) returns (panicked: bool)
    requires el.Element? && KindOf(el.name) == ListItem
    modifies md, depth
    ensures panicked <==> Trips(kernel, Collapsed(el))
    ensures !panicked ==> depth.n == old(depth.n) && Wrote(el, old(md.text), old(depth.n), md.text)
    decreases el, 1
  {
    hide KindOf;
    hide EmitChildren;
    hide Appends;
    hide Trips;
    hide CollapsedIn;
    hide EndsNl;
    hide Repeat;
    ghost var before, gs := md.text, [];
    AppendsNothing(before);
    NoRepeats("  ");
    var k, n := 0, if depth.n == 0 then 0 else depth.n - 1;
    while k < n
      invariant k <= n && Appends(before, gs, md.text) && gs == Markup(Repeat("  ", k)) && depth.n == old(depth.n)
    {
      gs := md.PushMarkup("  ", before, gs);
      MarkupConcat(Repeat("  ", k), "  ");
      RepeatMore("  ", k);
      k := k + 1;
    }
    gs := md.PushMarkup("- ", before, gs);
    MarkupConcat(Repeat("  ", n), "- ");
    panicked, gs := WalkInside(kernel, el, md, depth, before, gs);
    if panicked {
      return;
    }
    gs := md.PushMarkup("\n", before, gs);
  }

  /** The arms that bracket their children: `a`, and the inline styles. */
  method WalkBracketed(kernel: Kernel, el: Node, open: string, close: string, md: Buffer, depth: Counter)
    returns (panicked: bool)
    requires el.Element? && open != "" && open[|open| - 1] != '\n'
    modifies md, depth
    ensures panicked <==> Trips(kernel, CollapsedIn(el.children))
    ensures !panicked ==> depth.n == old(depth.n)
    ensures !panicked ==>
      Appends(old(md.text), Markup(open) + EmitChildren(el.children, false, old(depth.n)) + Markup(close), md.text)
    decreases el, 1
  {
    hide *;
    ghost var before := md.text;
    PushOnly(open, md);
    LastOfMarkup(open);
    ghost var gs;
    panicked, gs := WalkInside(kernel, el, md, depth, before, Markup(open));
    if panicked {
      return;
    }
    gs := md.PushMarkup(close, before, gs);
  }

  /** The arms that write something after their children: cells and lines of tables. */
  method WalkThen(kernel: Kernel, el: Node, close: string, md: Buffer, depth: Counter) returns (panicked: bool)
    requires el.Element?
    modifies md, depth
    ensures panicked <==> Trips(kernel, CollapsedIn(el.children))
    ensures !panicked ==> depth.n == old(depth.n)
    ensures !panicked ==>
      Appends(old(md.text), EmitChildren(el.children, EndsNl(old(md.text)), old(depth.n)) + Markup(close), md.text)
    decreases el, 1
  {
    hide EmitChildren;
    hide Appends;
    hide Trips;
    hide CollapsedIn;
    hide EndsNl;
    hide Repeat;
    ghost var before := md.text;
    panicked := WalkChildren(kernel, el, md, depth);
    if panicked {
      return;
    }
    ghost var gs := md.PushMarkup(close, before, EmitChildren(el.children, EndsNl(before), depth.n));
  }

  lemma WrappersAreInline(name: string)
    requires KindOf(name).Wrapped?
    ensures var open := KindOf(name).open; open != "" && open[|open| - 1] != '\n'
  {
  }

  method WalkElement(kernel: Kernel, el: Node, md: Buffer, depth: Counter) returns (panicked: bool)
    requires el.Element?
    modifies md, depth
    ensures panicked <==> Trips(kernel, Collapsed(el))
    ensures !panicked ==> depth.n == old(depth.n) && Wrote(el, old(md.text), old(depth.n), md.text)
    decreases el, 2
  {
    hide KindOf;
    hide EmitChildren;
    hide Appends;
    hide EndsNl;
    hide Trips;
    hide CollapsedIn;
    hide CollapsedInElements;
    hide CollapsedInItems;
    NothingTrips(kernel);
    panicked := false;
    match KindOf(el.name)
    case Heading(level) => panicked := WalkHeading(kernel, el, level, md, depth);
    case Paragraph => panicked := WalkParagraph(kernel, el, md, depth);
    case Break => PushOnly("\n", md);
    case Rule => PushOnly("---\n\n", md);
    case Blockquote => panicked := WalkBlockquote(kernel, el, md, depth);
    case Preformatted => WalkPre(el, md);
    case CodeSpan => WalkCode(el, md);
    case UnorderedList => panicked := WalkUnordered(kernel, el, md, depth);
    case OrderedList => panicked := WalkOrdered(kernel, el, md, depth);
    case ListItem => panicked := WalkListItem(kernel, el, md, depth);
    case Anchor => panicked := WalkBracketed(kernel, el, "[", "](" + Attr(el.attrs, "href") + ")", md, depth);
    case Image => PushOnly("![" + Attr(el.attrs, "alt") + "](" + Attr(el.attrs, "src") + ")", md);
    case Wrapped(open, close) =>
      WrappersAreInline(el.name);
      panicked := WalkBracketed(kernel, el, open, close, md, depth);
    case Skipped => AppendsNothing(md.text);
    case Frame =>
      var src := Attr(el.attrs, "src");
      if src != "" {
        PushOnly("[iframe: " + src + "]", md);
      } else {
        AppendsNothing(md.text);
      }
    case Cell => panicked := WalkThen(kernel, el, " ", md, depth);
    case Line => panicked := WalkThen(kernel, el, "\n", md, depth);
    case Plain => panicked := WalkChildren(kernel, el, md, depth);
  }
}
