/** Which documents the conversions of src/actions/scrape.rs panic on: those with a text on which the
    kernel of the target does. */
module ConversionPanics {
  import opened Dom
  import opened VectorKernels
  import W = Whitespace
  import opened Markdown
  import opened DomToMarkdown
  import opened PlainText
  import S = WebScrape
  import T = Text

  // ---------------------------------------------------------------------------------------------
  // The texts in question are shown

  lemma {:induction false} CollapsedIsShown(el: Node)
    requires el.Element?
    ensures forall t :: t in Collapsed(el) ==> t in Shown(el)
    decreases el, 1
  {
    hide KindOf;
    CollapsedAreShown(el.children);
  }

  /** Only texts that are shown are collapsed, so only they can make the conversion to Markdown panic. */
  lemma {:induction false} CollapsedAreShown(cs: seq<Node>)
    ensures forall t :: t in CollapsedIn(cs) ==> t in ShownInChildren(cs)
    ensures forall t :: t in CollapsedInElements(cs) ==> t in ShownInElements(cs)
    ensures forall t :: t in CollapsedInItems(cs) ==> t in ShownInItems(cs)
    decreases cs, 0
  {
    if cs == [] {
    } else {
      CollapsedAreShown(cs[1..]);
      if cs[0].Element? {
        CollapsedIsShown(cs[0]);
        CollapsedAreShown(cs[0].children);
      }
      assert forall t :: t in CollapsedAt(cs[0]) ==> t in ShownAt(cs[0]);
      assert ShownInChildren(cs) == ShownAt(cs[0]) + ShownInChildren(cs[1..]);
      hide Collapsed;
      hide Shown;
    }
  }

  /** No other kernel, and no kernel with the intended shift, makes a conversion panic. */
  lemma OnlyX86Trips(kernel: Kernel, texts: set<string>, words: seq<string>)
    ensures Trips(kernel, texts) || WordTrips(kernel, words) ==> kernel.X86? && !kernel.shift.Full?
  {
  }

  // ---------------------------------------------------------------------------------------------
  // A family of documents that cannot be converted

  function Paragraph(t: string): seq<Node> {
    [Element("p", map[], [Text(t)])]
  }

  /** Both walkers hand the text of a paragraph to the kernel. */
  lemma ParagraphTrips(kernel: Kernel, t: string)
    requires Stuck(kernel, t) && T.Trimmed(t)
    ensures Trips(kernel, CollapsedInElements(Paragraph(t)))
    ensures WordTrips(kernel, VisitedInElements(Paragraph(t)))
  {
    var p := Paragraph(t)[0];
    assert [Text(t)][1..] == [] && [p][1..] == [];
    assert KindOf("p").Paragraph? && !TextSkipped("p");
    T.TrimmedIsFixed(t);
    hide Stuck;
    hide T.Trim;
    assert CollapsedIn([Text(t)]) == {t} && VisitedIn([Text(t)]) == [t];
    assert CollapsedInElements([p]) == {t};
    assert VisitedInElements([p]) == Visited(p) + VisitedInElements([]) == [t];
  }

  lemma LongWordIsStuck(shift: Shift, word: string, more: string)
    requires !shift.Full? && |word| == 15
    requires forall k :: 0 <= k < 15 ==> (word[k] as int) < 0x80 && !W.IsAsciiWs(word[k] as int)
    ensures Stuck(X86(shift), word + " " + more)
  {
    hide Stalls;
    LongWordStalls(word, ' ', more);
  }

  /** On x86_64, as the kernel is written, both conversions of a paragraph panic if it begins with
      fifteen ASCII characters without whitespace, a space and more text. */
  lemma LongWordPanics(shift: Shift, word: string, more: string)
    requires !shift.Full? && |word| == 15 && more != "" && T.Trimmed(more)
    requires forall k :: 0 <= k < 15 ==> (word[k] as int) < 0x80 && !T.IsWhite(word[k])
    ensures Trips(X86(shift), CollapsedInElements(Paragraph(word + " " + more)))
    ensures WordTrips(X86(shift), VisitedInElements(Paragraph(word + " " + more)))
  {
    var t := word + " " + more;
    assert T.Trimmed(t) by {
      assert t[|t| - 1] == more[|more| - 1];
    }
    forall k | 0 <= k < 15 ensures !W.IsAsciiWs(word[k] as int) {
      AsciiWsIsWhite(word[k]);
    }
    hide *;
    LongWordIsStuck(shift, word, more);
    ParagraphTrips(X86(shift), t);
  }

  /** A concrete one: "internationally known". */
  lemma LongWordExample(shift: Shift)
    requires !shift.Full?
    ensures Trips(X86(shift), CollapsedInElements(Paragraph("internationally" + " " + "known")))
    ensures WordTrips(X86(shift), VisitedInElements(Paragraph("internationally" + " " + "known")))
  {
    var word, more := "internationally", "known";
    assert T.Trimmed(more) by {
      assert more[0] == 'k' && more[4] == 'n';
    }
    forall k | 0 <= k < 15 ensures (word[k] as int) < 0x80 && !T.IsWhite(word[k]) {
      assert 'a' <= word[k] <= 'z';
    }
    hide *;
    LongWordPanics(shift, word, more);
  }

  /** So asking for the Markdown of a page with that paragraph fails on x86_64: in a debug build the task,
      in a release build the process. */
  lemma LongWordFails(build: S.Build, l: S.Library, body: string, formats: seq<S.Format>)
    requires l.parse(body) == Paragraph("internationally" + " " + "known") && S.Markdown in formats
    ensures S.Sections(l, S.KernelOf(S.X86_64, build), body, false, formats).Panicked?
  {
    var shift := if build.Debug? then Checked else Wrapping;
    assert S.KernelOf(S.X86_64, build) == X86(shift);
    assert S.CollapsedTexts(l, body, false) == CollapsedInElements(l.parse(body));
    hide *;
    LongWordExample(shift);
    S.FailsIff(S.X86_64, build, l, formats, body, false);
  }
}
