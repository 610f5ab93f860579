/** The loop of `web_scrape` (src/actions/scrape.rs) that builds one section per requested format
    and moves the page body into the last section that wants all of it. */
module WebScrape {
  import opened Wrappers
  import opened Sequences
  import opened Dom
  import K = VectorKernels
  import M = Markdown
  import D = DomToMarkdown

  /** The profiles of Cargo.toml: a release build wraps on overflow and ends the process on a panic, a
      debug build checks overflow and unwinds. */
  datatype Build = Debug | Release

  datatype Target = X86_64 | Aarch64 | OtherTarget

  /** The kernel that is compiled. */
  function KernelOf(target: Target, build: Build): K.Kernel {
    match target
    case X86_64 => K.X86(if build.Debug? then K.Checked else K.Wrapping)
    case Aarch64 => K.Arm
    case OtherTarget => K.Portable
  }

  /** The formats that pass validation; the screenshot formats and unknown names do not. */
  datatype Format = Markdown | Extract | Html | RawHtml | Links

  function ParseFormat(name: string): Option<Format> {
    if name == "markdown" then Some(Markdown)
    else if name == "extract" then Some(Extract)
    else if name == "html" then Some(Html)
    else if name == "rawHtml" then Some(RawHtml)
    else if name == "links" then Some(Links)
    else None
  }

  /** Library code: the parser, the selection of the main element, and the converters that do not walk
      the tree. */
  datatype Library = Library(
    parse: string -> seq<Node>,
    selectMain: seq<Node> -> Option<ElementRef>,
    extractMain: (seq<Node>, string) -> string,
    links: seq<Node> -> string)

  /** A panic on the blocking pool, be it of a kernel or of `expect("dom parsed")`, is a failed task where
      it unwinds; otherwise it is the end of the process. */
  datatype Scraped = UnknownFormat(name: string) | TaskFailed | Aborted | Content(text: string)

  /** The Markdown of a page. */
  ghost function PageMarkdown(l: Library, kernel: K.Kernel, body: string, onlyMain: bool): Outcome<string> {
    var doc := l.parse(body);
    if onlyMain then D.MainMarkdown(kernel, doc, l.selectMain(doc)) else D.DocumentMarkdown(kernel, doc)
  }

  /** The section of one format, with the whole document and the whole body at hand. */
  ghost function Section(l: Library, kernel: K.Kernel, body: string, onlyMain: bool, f: Format): Outcome<string> {
    match f
    case Markdown => PageMarkdown(l, kernel, body, onlyMain)
    case Extract => PageMarkdown(l, kernel, body, onlyMain)
    case Html => Returned(if onlyMain then l.extractMain(l.parse(body), body) else body)
    case RawHtml => Returned(body)
    case Links => Returned(l.links(l.parse(body)))
  }

  /** The sections of all formats, unless one panics. */
  ghost function Sections(l: Library, kernel: K.Kernel, body: string, onlyMain: bool, formats: seq<Format>)
    : (r: Outcome<seq<string>>)
    ensures r.Panicked? <==> exists f :: f in formats && Section(l, kernel, body, onlyMain, f).Panicked?
    ensures r.Returned? ==> |r.value| == |formats|
    ensures r.Returned? ==>
      forall k :: 0 <= k < |formats| ==> Section(l, kernel, body, onlyMain, formats[k]) == Returned(r.value[k])
  {
    if formats == [] then Returned([])
    else
      var last, before := formats[|formats| - 1], formats[..|formats| - 1];
      assert formats == before + [last];
      match Sections(l, kernel, body, onlyMain, before)
      case Panicked => Panicked
      case Returned(sections) =>
        match Section(l, kernel, body, onlyMain, last)
        case Panicked => Panicked
        case Returned(section) => Returned(sections + [section])
  }

  /** The first name that is no format. */
  function FirstUnknown(names: seq<string>): (n: nat)
    ensures n <= |names|
    ensures forall k :: 0 <= k < n ==> ParseFormat(names[k]).Some?
    ensures n < |names| ==> ParseFormat(names[n]).None?
  {
    if names == [] || ParseFormat(names[0]).None? then 0 else 1 + FirstUnknown(names[1..])
  }

  /** The formats named. */
  function Formats(names: seq<string>): (r: seq<Format>)
    requires FirstUnknown(names) == |names|
    ensures |r| == |names| && forall k :: 0 <= k < |names| ==> ParseFormat(names[k]) == Some(r[k])
  {
    seq(|names|, k requires 0 <= k < |names| => ParseFormat(names[k]).value)
  }

  predicate NeedsDom(f: Format, onlyMain: bool) {
    f == Markdown || f == Extract || f == Links || (f == Html && onlyMain)
  }

  predicate IsRaw(f: Format, onlyMain: bool) {
    f == RawHtml || (f == Html && !onlyMain)
  }

  /** `rposition`. */
  function LastRaw(formats: seq<Format>, onlyMain: bool): (r: Option<nat>)
    ensures r.Some? ==> r.value < |formats| && IsRaw(formats[r.value], onlyMain)
    ensures forall k :: (if r.Some? then r.value < k else 0 <= k) && k < |formats| ==> !IsRaw(formats[k], onlyMain)
  {
    if formats == [] then None
    else if IsRaw(formats[|formats| - 1], onlyMain) then Some(|formats| - 1)
    else LastRaw(formats[..|formats| - 1], onlyMain)
  }

  function Taken(body: Option<string>): string {
    if body.Some? then body.value else ""
  }

  lemma NoSections(l: Library, kernel: K.Kernel, body: string, onlyMain: bool, formats: seq<Format>)
    ensures Sections(l, kernel, body, onlyMain, formats[..0]) == Returned([])
  {
  }

  lemma NextSection(l: Library, kernel: K.Kernel, body: string, onlyMain: bool, formats: seq<Format>, k: nat)
    requires k < |formats|
    ensures
      Sections(l, kernel, body, onlyMain, formats[..k + 1]) ==
        match Sections(l, kernel, body, onlyMain, formats[..k])
        case Panicked => Panicked
        case Returned(sections) =>
          match Section(l, kernel, body, onlyMain, formats[k])
          case Panicked => Panicked
          case Returned(section) => Returned(sections + [section])
  {
    assert formats[..k + 1][..k] == formats[..k];
  }

  lemma SectionsPanic(l: Library, kernel: K.Kernel, body: string, onlyMain: bool, formats: seq<Format>, k: nat)
    requires k < |formats| && Section(l, kernel, body, onlyMain, formats[k]).Panicked?
    ensures Sections(l, kernel, body, onlyMain, formats) == Panicked
  {
    assert formats[k] in formats;
  }

  method Convert(l: Library, kernel: K.Kernel, doc: seq<Node>, ghost body: string, onlyMain: bool)
    returns (r: Outcome<string>)
    requires doc == l.parse(body)
    ensures r == PageMarkdown(l, kernel, body, onlyMain)
  {
    if onlyMain {
      r := D.MainToMarkdownDoc(kernel, doc, l.selectMain(doc));
    } else {
      r := D.DomToMarkdownDoc(kernel, doc);
    }
  }

  /** One turn of the loop. */
  method BuildOne(l: Library, kernel: K.Kernel, doc: Option<seq<Node>>, f: Format, k: nat, lastRaw: Option<nat>,
                  bodyOpt: Option<string>, body: string, onlyMain: bool)
    returns (section: Outcome<string>, bodyOpt': Option<string>)
    requires NeedsDom(f, onlyMain) ==> doc == Some(l.parse(body))
    requires IsRaw(f, onlyMain) || (onlyMain && f == Html) ==> bodyOpt == Some(body)
    requires lastRaw == Some(k) ==> IsRaw(f, onlyMain)
    ensures section == Section(l, kernel, body, onlyMain, f)
    ensures bodyOpt' == if lastRaw == Some(k) then None else bodyOpt
  {
    bodyOpt' := bodyOpt;
    match f {
      case Markdown => section := Convert(l, kernel, doc.value, body, onlyMain);
      case Extract => section := Convert(l, kernel, doc.value, body, onlyMain);
      case Html =>
        section := Returned(if onlyMain then l.extractMain(doc.value, Taken(bodyOpt)) else Taken(bodyOpt));
        if !onlyMain && lastRaw == Some(k) {
          bodyOpt' := None;
        }
      case RawHtml =>
        section := Returned(Taken(bodyOpt));
        if lastRaw == Some(k) {
          bodyOpt' := None;
        }
      case Links => section := Returned(l.links(doc.value));
    }
  }

  /** The part that runs on the blocking pool, up to the join. */
  method BuildSections(l: Library, kernel: K.Kernel, formats: seq<Format>, body: string, onlyMain: bool)
    returns (r: Outcome<seq<string>>)
    ensures r == Sections(l, kernel, body, onlyMain, formats)
  {
    hide Section;
    hide Sections;
    hide LastRaw;
    var needsDom := exists f :: f in formats && NeedsDom(f, onlyMain);
    var doc := if needsDom then Some(l.parse(body)) else None;
    var needsBodyBorrow := onlyMain && Html in formats;
    var lastRaw := if needsBodyBorrow then None else LastRaw(formats, onlyMain);
    var bodyOpt := Some(body);
    var sections := [];
    NoSections(l, kernel, body, onlyMain, formats);
    for k := 0 to |formats|
      invariant Sections(l, kernel, body, onlyMain, formats[..k]) == Returned(sections)
      invariant bodyOpt == if lastRaw.Some? && lastRaw.value < k then None else Some(body)
    {
      var f := formats[k];
      NextSection(l, kernel, body, onlyMain, formats, k);
      if doc.None? && NeedsDom(f, onlyMain) {
        return Panicked;
      }
      var section;
      section, bodyOpt := BuildOne(l, kernel, doc, f, k, lastRaw, bodyOpt, body, onlyMain);
      if section.Panicked? {
        SectionsPanic(l, kernel, body, onlyMain, formats, k);
        return Panicked;
      }
      sections := sections + [section.value];
    }
    assert formats[..|formats|] == formats;
    return Returned(sections);
  }

  /** Every section is the one that a full copy of the body would give, and the document is there
      wherever it is expected, so that only the kernel can fail, which ends the task or the process. */
  method Scrape(target: Target, build: Build, l: Library, names: seq<string>, body: string, onlyMain: bool)
    returns (r: Scraped)
    ensures
      var n := FirstUnknown(names);
      if n < |names| then r == UnknownFormat(names[n])
      else
        match Sections(l, KernelOf(target, build), body, onlyMain, Formats(names))
        case Panicked => r == if build.Release? then Aborted else TaskFailed
        case Returned(sections) =>
          var text := Join(sections, "\n\n");
          r == Content(if text == "" then "No content found" else text)
  {
    hide ParseFormat;
    hide Section;
    hide Sections;
    hide FirstUnknown;
    hide KernelOf;
    var formats := [];
    for k := 0 to |names|
      invariant k <= FirstUnknown(names) && |formats| == k
      invariant forall i :: 0 <= i < k ==> ParseFormat(names[i]) == Some(formats[i])
    {
      var f := ParseFormat(names[k]);
      if f.None? {
        return UnknownFormat(names[k]);
      }
      formats := formats + [f.value];
    }
    assert formats == Formats(names);
    var sections := BuildSections(l, KernelOf(target, build), formats, body, onlyMain);
    if sections.Panicked? {
      return if build.Release? then Aborted else TaskFailed;
    }
    var text := Join(sections.value, "\n\n");
    return Content(if text == "" then "No content found" else text);
  }

  // ---------------------------------------------------------------------------------------------
  // When scraping fails

  /** The texts of a page that are collapsed. */
  function CollapsedTexts(l: Library, body: string, onlyMain: bool): set<string> {
    var doc := l.parse(body);
    if onlyMain && l.selectMain(doc).Some? then M.Collapsed(l.selectMain(doc).value) else M.CollapsedInElements(doc)
  }

  /** Exactly if Markdown is asked for and the kernel of the build panics on a text of the page; so never
      but on x86_64. */
  lemma FailsIff(target: Target, build: Build, l: Library, formats: seq<Format>, body: string, onlyMain: bool)
    ensures
      var kernel := KernelOf(target, build);
      Sections(l, kernel, body, onlyMain, formats).Panicked? <==>
        && (Markdown in formats || Extract in formats)
        && M.Trips(kernel, CollapsedTexts(l, body, onlyMain))
    ensures target != X86_64 ==> Sections(l, KernelOf(target, build), body, onlyMain, formats).Returned?
  {
    hide Sections;
    hide M.Collapsed;
    hide M.CollapsedInElements;
  }
}
