/** Output characters that remember whether they came from a text node of the document. The real
    buffers hold plain characters; the tags exist in specifications only. */
module Glyphs {
  import opened Text
  import opened Sequences

  datatype Glyph = Glyph(c: char, fromText: bool)

  /** The real characters. */
  function Erase(gs: seq<Glyph>): (cs: seq<char>)
    ensures |cs| == |gs| && forall k :: 0 <= k < |gs| ==> cs[k] == gs[k].c
  {
    seq(|gs|, k requires 0 <= k < |gs| => gs[k].c)
  }

  function Tag(cs: seq<char>, fromText: bool): (gs: seq<Glyph>)
    ensures |gs| == |cs| && forall k :: 0 <= k < |cs| ==> gs[k] == Glyph(cs[k], fromText)
  {
    seq(|cs|, k requires 0 <= k < |cs| => Glyph(cs[k], fromText))
  }

  /** Characters of a text node. */
  function Ink(cs: seq<char>): seq<Glyph> {
    Tag(cs, true)
  }

  /** Characters the converter adds: markup, separators, attribute values. */
  function Markup(cs: seq<char>): seq<Glyph> {
    Tag(cs, false)
  }

  lemma EraseConcat(a: seq<Glyph>, b: seq<Glyph>)
    ensures Erase(a + b) == Erase(a) + Erase(b)
  {
  }

  lemma EraseTag(cs: seq<char>, fromText: bool)
    ensures Erase(Tag(cs, fromText)) == cs
  {
  }

  /** The non-whitespace characters that came from text nodes, in order. */
  function Content(gs: seq<Glyph>): seq<char> {
    if gs == [] then []
    else (if gs[0].fromText && !IsWhite(gs[0].c) then [gs[0].c] else []) + Content(gs[1..])
  }

  lemma {:induction false} ContentConcat(a: seq<Glyph>, b: seq<Glyph>)
    ensures Content(a + b) == Content(a) + Content(b)
  {
    hide IsWhite;
    if a == [] {
      assert a + b == b;
    } else {
      ContentConcat(a[1..], b);
      assert (a + b)[1..] == a[1..] + b;
      Regroup(if a[0].fromText && !IsWhite(a[0].c) then [a[0].c] else [], Content(a[1..]), Content(b));
    }
  }

  lemma {:induction false} ContentOfMarkup(cs: seq<char>)
    ensures Content(Markup(cs)) == []
  {
    if cs == [] {
    } else {
      ContentOfMarkup(cs[1..]);
      assert Markup(cs)[1..] == Markup(cs[1..]);
    }
  }

  lemma {:induction false} ContentOfInk(cs: seq<char>)
    ensures Content(Ink(cs)) == NonWhite(cs)
  {
    hide IsWhite;
    if cs == [] {
    } else {
      ContentOfInk(cs[1..]);
      assert Ink(cs)[1..] == Ink(cs[1..]);
    }
  }

  lemma {:induction false} ContentOfWhite(gs: seq<Glyph>)
    requires forall k :: 0 <= k < |gs| ==> IsWhite(gs[k].c)
    ensures Content(gs) == []
  {
    if gs == [] {
    } else {
      ContentOfWhite(gs[1..]);
    }
  }

  // ---------------------------------------------------------------------------------------------
  // Trimming and newline squeezing, decided by the character alone

  function TrimGlyphs(gs: seq<Glyph>): seq<Glyph> {
    var rest := gs[Lead(Erase(gs))..];
    rest[..|rest| - Trail(Erase(rest))]
  }

  lemma EraseTrim(gs: seq<Glyph>)
    ensures Erase(TrimGlyphs(gs)) == Trim(Erase(gs))
  {
    assert Erase(gs[Lead(Erase(gs))..]) == TrimStart(Erase(gs));
  }

  /** Trimming cuts whitespace off both ends. */
  lemma TrimSplits(gs: seq<Glyph>) returns (a: seq<Glyph>, b: seq<Glyph>)
    ensures gs == a + TrimGlyphs(gs) + b
    ensures forall k :: 0 <= k < |a| ==> IsWhite(a[k].c)
    ensures forall k :: 0 <= k < |b| ==> IsWhite(b[k].c)
  {
    hide IsWhite;
    hide Lead;
    hide Trail;
    var n := Lead(Erase(gs));
    var rest := gs[n..];
    var m := |rest| - Trail(Erase(rest));
    a, b := gs[..n], rest[m..];
    forall k | 0 <= k < |a| ensures IsWhite(a[k].c) {
      LeadIsWhite(Erase(gs));
      assert IsWhite(Erase(gs)[k]);
    }
    forall k | 0 <= k < |b| ensures IsWhite(b[k].c) {
      TrailIsWhite(Erase(rest));
      assert IsWhite(Erase(rest)[m + k]);
    }
    assert rest[..m] + b == rest;
    assert a + rest == gs;
    Regroup(a, rest[..m], b);
  }

  lemma TrimKeepsContent(gs: seq<Glyph>)
    ensures Content(TrimGlyphs(gs)) == Content(gs)
  {
    hide IsWhite;
    hide TrimGlyphs;
    hide Content;
    var a, b := TrimSplits(gs);
    ContentOfWhite(a);
    ContentOfWhite(b);
    ContentConcat(a + TrimGlyphs(gs), b);
    ContentConcat(a, TrimGlyphs(gs));
  }

  /** `cleanup_md`'s loop: of a run of newlines only the first two survive; `run` have been seen. */
  function Squeeze(gs: seq<Glyph>, run: nat): seq<Glyph> {
    if gs == [] then []
    else if gs[0].c == '\n' then (if run < 2 then [gs[0]] else []) + Squeeze(gs[1..], run + 1)
    else [gs[0]] + Squeeze(gs[1..], 0)
  }

  function Cleanup(gs: seq<Glyph>): seq<Glyph> {
    TrimGlyphs(Squeeze(gs, 0))
  }

  lemma {:induction false} SqueezeKeepsContent(gs: seq<Glyph>, run: nat)
    ensures Content(Squeeze(gs, run)) == Content(gs)
  {
    if gs == [] {
    } else {
      var nl := gs[0].c == '\n';
      var tail := Squeeze(gs[1..], if nl then run + 1 else 0);
      SqueezeKeepsContent(gs[1..], if nl then run + 1 else 0);
      assert ([gs[0]] + tail)[1..] == tail && [] + tail == tail;
      assert nl ==> IsWhite(gs[0].c);
      hide IsWhite;
      assert Content([gs[0]] + tail) == Content([gs[0]]) + Content(tail) by { ContentConcat([gs[0]], tail); }
    }
  }

  lemma CleanupKeepsContent(gs: seq<Glyph>)
    ensures Content(Cleanup(gs)) == Content(gs)
  {
    SqueezeKeepsContent(gs, 0);
    TrimKeepsContent(Squeeze(gs, 0));
  }

  /** The glyphs other than newlines. */
  function NonNewline(gs: seq<Glyph>): seq<Glyph> {
    if gs == [] then [] else (if gs[0].c == '\n' then [] else [gs[0]]) + NonNewline(gs[1..])
  }

  ghost predicate NoTripleNewline(gs: seq<Glyph>) {
    forall k :: 0 <= k < |gs| - 2 ==> !(gs[k].c == '\n' && gs[k + 1].c == '\n' && gs[k + 2].c == '\n')
  }

  /** Fewer than three newlines in a row, counting `run` just before `gs`. */
  ghost predicate Squeezed(gs: seq<Glyph>, run: nat) {
    gs != [] ==>
      if gs[0].c == '\n' then run < 2 && Squeezed(gs[1..], run + 1) else Squeezed(gs[1..], 0)
  }

  lemma {:induction false} SqueezeIsSqueezed(gs: seq<Glyph>, run: nat)
    ensures Squeezed(Squeeze(gs, run), if run < 2 then run else 2)
  {
    if gs == [] {
    } else {
      var next := if gs[0].c == '\n' then run + 1 else 0;
      var tail := Squeeze(gs[1..], next);
      SqueezeIsSqueezed(gs[1..], next);
      if gs[0].c == '\n' && run >= 2 {
        assert Squeeze(gs, run) == [] + tail == tail;
      } else {
        assert Squeeze(gs, run) == [gs[0]] + tail;
        assert ([gs[0]] + tail)[1..] == tail;
      }
    }
  }

  lemma {:induction false} SqueezeKeepsNonNewline(gs: seq<Glyph>, run: nat)
    ensures NonNewline(Squeeze(gs, run)) == NonNewline(gs)
  {
    if gs == [] {
    } else {
      var next := if gs[0].c == '\n' then run + 1 else 0;
      var tail := Squeeze(gs[1..], next);
      SqueezeKeepsNonNewline(gs[1..], next);
      if gs[0].c == '\n' && run >= 2 {
        assert Squeeze(gs, run) == [] + tail == tail;
      } else {
        assert Squeeze(gs, run) == [gs[0]] + tail;
        assert ([gs[0]] + tail)[1..] == tail;
      }
    }
  }

  lemma {:induction false} SqueezedIsFixed(gs: seq<Glyph>, run: nat)
    requires Squeezed(gs, run)
    ensures Squeeze(gs, run) == gs
  {
    if gs == [] {
    } else {
      SqueezedIsFixed(gs[1..], if gs[0].c == '\n' then run + 1 else 0);
    }
  }

  lemma {:induction false} SqueezedMeansNoTriple(gs: seq<Glyph>, run: nat)
    requires Squeezed(gs, run)
    ensures NoTripleNewline(gs)
    ensures run == 1 && |gs| >= 2 ==> !(gs[0].c == '\n' && gs[1].c == '\n')
    ensures run >= 2 && gs != [] ==> gs[0].c != '\n'
  {
    if gs == [] {
    } else {
      SqueezedMeansNoTriple(gs[1..], if gs[0].c == '\n' then run + 1 else 0);
      forall k | 1 <= k < |gs| - 2
        ensures !(gs[k].c == '\n' && gs[k + 1].c == '\n' && gs[k + 2].c == '\n')
      {
        var t := gs[1..];
        assert t[k - 1] == gs[k] && t[k] == gs[k + 1] && t[k + 1] == gs[k + 2];
      }
    }
  }

  lemma {:induction false} NoTripleMeansSqueezed(gs: seq<Glyph>, run: nat)
    requires NoTripleNewline(gs)
    requires run == 1 && |gs| >= 2 ==> !(gs[0].c == '\n' && gs[1].c == '\n')
    requires run >= 2 && gs != [] ==> gs[0].c != '\n'
    ensures Squeezed(gs, run)
  {
    if gs == [] {
    } else {
      var t := gs[1..];
      assert forall k :: 0 <= k < |t| ==> t[k] == gs[k + 1];
      NoTripleMeansSqueezed(t, if gs[0].c == '\n' then run + 1 else 0);
    }
  }

  lemma NoTripleInside(a: seq<Glyph>, m: seq<Glyph>, b: seq<Glyph>)
    requires NoTripleNewline(a + m + b)
    ensures NoTripleNewline(m)
  {
    var all, n := a + m + b, |a|;
    forall k | 0 <= k < |m| - 2 ensures !(m[k].c == '\n' && m[k + 1].c == '\n' && m[k + 2].c == '\n') {
      assert all[n + k] == m[k] && all[n + k + 1] == m[k + 1] && all[n + k + 2] == m[k + 2];
    }
  }

  lemma FixedByCleanup(gs: seq<Glyph>)
    requires NoTripleNewline(gs) && Trimmed(Erase(gs))
    ensures Cleanup(gs) == gs
  {
    NoTripleMeansSqueezed(gs, 0);
    SqueezedIsFixed(gs, 0);
    assert Lead(Erase(gs)) == 0;
    hide Lead;
    assert gs[0..] == gs;
    assert Trail(Erase(gs)) == 0;
    hide Trail;
    assert TrimGlyphs(gs) == gs[..|gs|] == gs;
  }

  /** What `cleanup_md` promises: no run of three newlines, no outer whitespace; its outcomes are
      exactly the texts it leaves alone, so that cleaning twice is cleaning once. */
  lemma CleanupMeaning(gs: seq<Glyph>)
    ensures NoTripleNewline(Cleanup(gs)) && Trimmed(Erase(Cleanup(gs)))
    ensures Cleanup(gs) == gs <==> NoTripleNewline(gs) && Trimmed(Erase(gs))
    ensures Cleanup(Cleanup(gs)) == Cleanup(gs)
  {
    var sq, out := Squeeze(gs, 0), Cleanup(gs);
    SqueezeIsSqueezed(gs, 0);
    SqueezedMeansNoTriple(sq, 0);
    EraseTrim(sq);
    TrimIsTrimmed(Erase(sq));
    hide Squeeze;
    hide TrimGlyphs;
    hide Squeezed;
    hide IsWhite;
    hide Trim;
    var a, b := TrimSplits(sq);
    NoTripleInside(a, out, b);
    FixedByCleanup(out);
    if NoTripleNewline(gs) && Trimmed(Erase(gs)) { FixedByCleanup(gs); }
  }

  lemma {:induction false} NonNewlineConcat(a: seq<Glyph>, b: seq<Glyph>)
    ensures NonNewline(a + b) == NonNewline(a) + NonNewline(b)
  {
    if a == [] {
      assert a + b == b;
    } else {
      NonNewlineConcat(a[1..], b);
      assert (a + b)[1..] == a[1..] + b;
      Regroup(if a[0].c == '\n' then [] else [a[0]], NonNewline(a[1..]), NonNewline(b));
    }
  }

  /** Nothing is deleted but newlines, and whitespace at the two ends. */
  lemma CleanupDeletesLittle(gs: seq<Glyph>) returns (a: seq<Glyph>, b: seq<Glyph>)
    ensures NonNewline(gs) == NonNewline(a) + NonNewline(Cleanup(gs)) + NonNewline(b)
    ensures forall k :: 0 <= k < |a| ==> IsWhite(a[k].c)
    ensures forall k :: 0 <= k < |b| ==> IsWhite(b[k].c)
  {
    hide IsWhite;
    hide TrimGlyphs;
    SqueezeKeepsNonNewline(gs, 0);
    a, b := TrimSplits(Squeeze(gs, 0));
    NonNewlineConcat(a + Cleanup(gs), b);
    NonNewlineConcat(a, Cleanup(gs));
  }
}
