/** What each format of `web_scrape` gives, by its literal name. */
module ScrapeLaws {
  import opened Wrappers
  import opened Dom
  import opened WebScrape
  import K = VectorKernels
  import D = DomToMarkdown

  /** The names that are accepted. */
  lemma KnownNames(name: string)
    ensures ParseFormat(name).Some? <==> name in {"markdown", "extract", "html", "rawHtml", "links"}
  {
  }

  /** The section for each name. */
  lemma SectionByName(l: Library, kernel: K.Kernel, body: string, onlyMain: bool, name: string)
    requires ParseFormat(name).Some?
    ensures
      var section, doc := Section(l, kernel, body, onlyMain, ParseFormat(name).value), l.parse(body);
      && (name in {"markdown", "extract"} && !onlyMain ==> section == D.DocumentMarkdown(kernel, doc))
      && (name in {"markdown", "extract"} && onlyMain ==> section == D.MainMarkdown(kernel, doc, l.selectMain(doc)))
      && (name == "html" && !onlyMain ==> section == Returned(body))
      && (name == "html" && onlyMain ==> section == Returned(l.extractMain(doc, body)))
      && (name == "rawHtml" ==> section == Returned(body))
      && (name == "links" ==> section == Returned(l.links(doc)))
  {
    hide D.DocumentMarkdown;
    hide D.MainMarkdown;
  }
}
