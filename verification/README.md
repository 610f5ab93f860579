# Verified model of the MCP web-search server

This project models, in Dafny 4.11, the parts of the server whose correctness rests on loops, growing
buffers or interleaved steps, and proves what they promise.

* **Text kernels.** `collapse_whitespace` exists as an SSE2 mask walk, a NEON chunk loop and a byte loop.
  `Utf8`, `Whitespace`, `VectorKernels` and `StallingTexts` measure all three against one definition that looks at a
  character at a time, over the UTF-8 bytes of any string (RFC 3629, sections 3 and 4).
* **DOM to Markdown and to plain text.** `Dom`, `Text`, `Glyphs`, `Markdown`, `ContextIndependence`,
  `DomToMarkdown`, `PlainText`, `TextPositions`, `Agreement` and `ConversionPanics` model the two recursive walkers as methods that mutate a shared buffer.
  A *glyph* is a character with a tag saying whether a text node or the compiler wrote it; glyphs
  exist in specifications only. The main results are conservation of content, dependence on the context,
  the effect of the final cleanup, exactly when the two walkers agree, and exactly on which documents each of
  them panics, for every target's kernel.
* **Rate limiting.** `TokenBuckets` and `HttpGate` model the bucket and the order of the HTTP handler's
  early returns, and prove statements about whole runs of calls.
* **Browser pages.** `PagePool` is a state machine of arbitrarily many workers with crashes, failed launches,
  failed tab openings and cancellation at any await.
* **Input framing and the stdio session.** `LineReader` and `Session` prove that neither the lines nor the
  responses depend on how the bytes arrive; `Conformance` measures the responses against the JSON-RPC 2.0
  specification.
* **Fetching.** `Redirects` models both hand-written redirect loops (RFC 9110, section 15.4) and the capped body
  reader, `WebMap` the candidate pipeline of `web_map`, `WebScrape` the section loop of `web_scrape`.

Beside these, the modules whose names end in `Laws`, and `PoolAccounts`, say what the operations do in literal
terms: characters, element and method names, status numbers, rates and seconds.

Methods follow the source's loops and buffers. Each is proved against a specification function, and the lemmas
are about that function. Answers of the outside world (replies, validation, tools, clocks, crashes) are
parameters or arbitrary events, so every statement holds for all of them.

## Where the code falls short of its documentation

* `bits >>= trailing_ws + 1` (src/actions/scrape.rs:145) shifts a `u16` by 16 exactly when the mask is 0x8000:
  fifteen characters without whitespace and then one whitespace in an all-ASCII chunk. In a build that checks
  overflow that shift panics. In one that does not, the mask stays as it is, and the walk runs past the end of
  the string, where slicing panics. `VectorKernels.CollapseSse2` states exactly when this happens,
  `VectorKernels.AsciiStalls` gives the condition in terms of the input alone. With a shift that leaves nothing
  (`Shift.Full`), the same walk equals the reference on every string. The NEON and portable kernels always do.
* So the conversions panic on x86_64, exactly on the documents with such a text among those they collapse
  (`DomToMarkdown.DomToMarkdownDoc`, `PlainText.HtmlToText`; `StallingTexts.StallsIff` gives the condition on
  any text by its characters). The paragraph "internationally known" is one (`ConversionPanics.LongWordExample`).
  A release build sets `panic = "abort"` (Cargo.toml:107-112): there asking `web_scrape` for the Markdown of such
  a page ends the process, and no request after it is answered; in a debug build the task fails
  (`WebScrape.Scrape`, `WebScrape.FailsIff`, `ConversionPanics.LongWordFails`).
* `pre` copies every text below it, also that of a `script` (`Agreement.PreShowsScripts`) and that of a
  `template`, whose contents scraper keeps under a node that is neither element nor text
  (`Agreement.PreShowsTemplates`); and `ol` walks each element child without looking at its name. "Shown" text
  is defined to match; `Agreement.AgreeIffPlaced` says exactly on which documents every text node shown as
  Markdown is also plain text.
* The reply to a line that is served is the one that the JSON-RPC 2.0 specification (sections 4, 4.1, 5 and 5.1)
  requires exactly if the line is no JSON, a notification, or a Request object whose id is not null and that
  does not call a missing tool (`Conformance.ReplyConformsIff`). The derived `Deserialize`
  (src/protocol.rs:4-11) reads an id that is null as none, so that
  `{"jsonrpc":"2.0","method":"ping","id":null}` is dropped as a notification (`Conformance.NullIdIsDropped`); JSON
  that is no Request, such as `{}`, is answered by -32700 instead of -32600 (`Conformance.NonRequestIsParseError`);
  a call of a missing tool is answered as if there were no method `tools/call`; and neither the version nor the
  kind of `id` and `params` is looked at. A batch (section 6) is JSON that is no Request object here.
* An over-long request gets an error under the id null instead of its own (`Conformance.OverlongRequestIsDisowned`),
  and the lines behind it get nothing; `Conformance.LineConformsIff` says exactly which lines of a session get
  what is required for them. A client sees only the responses: `Conformance.SessionConformsIff` says exactly
  when it can take a whole session for conforming, and `Conformance.OversizeStandsIn` is a session where it can
  although no line got what was required.
* Over HTTP notifications are answered too, and what is no request gets a plain status 400: there the replies
  conform exactly for Request objects with an id, null included, that call no missing tool
  (`Conformance.HttpConformsIff`).
* `web_fetch_headers` joins and validates the target of one redirect too many before it gives up;
  `fetch_page` does not. `Redirects.HeadMeaning` says when their errors differ for that reason.

## Model

| member | source | states |
|---|---|---|
| Utf8.LeadByte | src/actions/scrape.rs:19-27 | the length announced by a leading byte is that of the whole encoded character, and only first bytes are leading bytes |
| Utf8.AtCharacter | src/actions/scrape.rs:47-51 | a reader standing where the encoding of the remaining characters starts is on a character boundary, and the announced length takes it exactly one character further |
| Utf8.BoundariesArePrefixes | src/actions/scrape.rs:49 | a position may be sliced at if and only if it is the end of some character prefix of the string |
| Whitespace.CollapseIdempotent | src/actions/scrape.rs:1774-1789 | collapsing twice is collapsing once; a string is left alone if and only if it has no adjacent whitespace and no whitespace but the space |
| Whitespace.Advance | src/actions/scrape.rs:34-53 | one turn of the byte loop, branch by branch: its slice is on boundaries and what was written plus what is still owed stays the reference's result |
| Whitespace.ScalarWs | src/actions/scrape.rs:33-55 | the helper started on a boundary with any pending flag stops on a boundary, possibly past `end`, with exactly the reference's output for what it consumed |
| Whitespace.CollapseGeneric | src/actions/scrape.rs:223-250 | the portable kernel returns the reference's bytes for every string, and no slice can fail |
| VectorKernels.Sse2Lane | src/actions/scrape.rs:105-119 | add, exclusive or and signed compare together decide `is_ascii_whitespace` for each of the 256 bytes, vertical tab excluded |
| VectorKernels.NeonLane | src/actions/scrape.rs:197-202 | the unsigned compare decides the same |
| VectorKernels.TrailingZerosOfMask | src/actions/scrape.rs:120-133 | a move mask is 0 iff no lane is set, and otherwise its trailing zeros count the lanes before the first set one |
| VectorKernels.ShiftRightOfMask | src/actions/scrape.rs:145 | shifting the mask by k drops the first k lanes |
| VectorKernels.ShiftBySixteen | src/actions/scrape.rs:133-145 | the shift amount is 16 if and only if the mask is 0x8000, if and only if just the last lane is set |
| VectorKernels.AdvanceRun | src/actions/scrape.rs:122-127 | copying a run of plain bytes in one slice is what the byte loop does, and the slice is on boundaries |
| VectorKernels.MaskTurn | src/actions/scrape.rs:133-145 | one turn of the walk, on the mask: it finds the next whitespace of the chunk, and what is left of the mask describes the lanes behind it |
| VectorKernels.TextTurn | src/actions/scrape.rs:134-144 | the same turn, on the text: the copied run and at most one space are what the reference writes |
| VectorKernels.WalkMask | src/actions/scrape.rs:129-149 | the walk over a chunk panics iff its mask is 0x8000 and the shift is not the intended one; otherwise it leaves a plain tail and keeps the reference's output |
| VectorKernels.CollapseSse2 | src/actions/scrape.rs:75-161 | the x86_64 kernel returns the reference's bytes on every string with the intended shift; as written, in both overflow modes, it does so unless it visits a chunk whose mask is 0x8000, and then it panics |
| VectorKernels.CollapseNeon | src/actions/scrape.rs:170-219 | the aarch64 kernel returns the reference's bytes for every string, and no slice can fail |
| VectorKernels.AsciiStalls | src/actions/scrape.rs:96-127 | on ASCII text a chunk with mask 0x8000 is visited if and only if some aligned block of sixteen characters is fifteen without whitespace and then one whitespace |
| VectorKernels.LongWordStalls | src/actions/scrape.rs:96-149 | whatever follows, a text that begins with fifteen ASCII characters without whitespace and then one whitespace meets the condition in its first chunk |
| StallingTexts.StallsIff | src/actions/scrape.rs:96-127 | on any text: the kernel visits a chunk with mask 0x8000 if and only if, when the text is cut after every character that completes sixteen bytes, one of the pieces is fifteen ASCII characters without whitespace and then one whitespace |
| StallingTexts.HeadLenMeaning | src/actions/scrape.rs:96-103 | what that cut means: a piece takes sixteen bytes and would not without its last character |
| StallingTexts.ScalarEndIs | src/actions/scrape.rs:33-55 | the scalar loop stops behind the character that completes the chunk |
| VectorKernels.StallingExample | src/actions/scrape.rs:145 | a concrete string that the reference returns unchanged and on which the written kernel panics |
| VectorKernels.CollapseWhitespace | src/actions/scrape.rs:74-250 | whichever of the three definitions the target compiles: it panics exactly on the texts that stall the written SSE2 kernel and otherwise returns the reference's string |
| WhitespaceLaws.OnlySingleSpacesRemain | src/actions/scrape.rs:1774-1789 | a collapsed text has no tab, newline, form feed or carriage return and no two adjacent spaces |
| WhitespaceLaws.RunBecomesSpace | src/actions/scrape.rs:1774-1789 | a run of those four and the space, with other characters on both sides, becomes exactly one space, and what stands on either side does not depend on it |
| WhitespaceLaws.OthersAreUnchanged | src/actions/scrape.rs:1774-1789 | a text with none of the five is unchanged |
| WhitespaceLaws.VerticalTabStays | src/actions/scrape.rs:113-119 | so a vertical tab stays |
| WhitespaceLaws.TrimTakesWhite | src/actions/scrape.rs:354 | trimming takes off exactly the padding made of the 25 characters that are white in Unicode |
| Text.TrimKeepsNonWhite | src/actions/scrape.rs:354 | trimming loses no character but whitespace |
| Text.CollapseKeepsNonWhite | src/actions/scrape.rs:1774-1789 | collapsing loses and adds no character but whitespace, and keeps the order |
| Text.CollapseKeepsTrimmed | src/actions/scrape.rs:569 | a trimmed text is still trimmed after collapsing |
| Glyphs.CleanupKeepsContent | src/actions/scrape.rs:254-286 | `cleanup_md` keeps every non-whitespace character that came from a text node, in order |
| Glyphs.CleanupMeaning | src/actions/scrape.rs:252-286 | the result has no run of three newlines and no outer whitespace; a text is left alone iff it has neither; cleaning twice is cleaning once |
| Glyphs.CleanupDeletesLittle | src/actions/scrape.rs:263-285 | nothing is deleted but newlines and the whitespace at both ends |
| Dom.TextSkippedIsSkipped | src/actions/scrape.rs:432-434 | every element the plain-text walker skips, the Markdown walker skips too when it looks at its name |
| Markdown.EndBlock | src/actions/scrape.rs:314-317 | ends the open line if there is one, seen from the buffer's last character, and adds an empty line |
| Markdown.WalkChildren | src/actions/scrape.rs:290-301 | appends exactly what the children emit, each seeing only whether the buffer then ends in a newline; the list depth on exit is that on entry; it panics iff the kernel does on one of the texts collapsed below |
| Markdown.WalkText | src/actions/scrape.rs:294-299 | a text node appends its collapsed text unless that is empty or one space, and panics iff the kernel does on it |
| Markdown.WalkHeading | src/actions/scrape.rs:307-318 | h1 to h6: as many hashes as the level, the children as after a non-newline, one empty line behind them whether or not they ended the line themselves |
| Markdown.WalkParagraph | src/actions/scrape.rs:319-325 | p: the children in the buffer's own context, then the line is ended if it is open, and one empty line |
| Markdown.WalkBlockquote | src/actions/scrape.rs:328-337 | the children go to a buffer of their own, whose lines are quoted one by one |
| Markdown.PushQuoted | src/actions/scrape.rs:331-335 | the loop over `lines()` writes each line once, carriage returns before newlines dropped |
| Markdown.WalkPre | src/actions/scrape.rs:338-349 | all texts below, verbatim and whatever holds them, templates included, between fences on lines of their own; it never panics |
| Markdown.WalkCode | src/actions/scrape.rs:350-358 | code and kbd: the direct texts, each trimmed, between backquotes |
| Markdown.WalkUnordered | src/actions/scrape.rs:359-371 | element children only, one list level deeper; the level is restored and never goes below zero |
| Markdown.WalkOrdered | src/actions/scrape.rs:372-387 | numbered items, one list level deeper; the level is restored and never goes below zero |
| Markdown.PushItems | src/actions/scrape.rs:374-384 | the items are the element children, whatever their names, numbered consecutively from one |
| Markdown.WalkListItem | src/actions/scrape.rs:388-395 | li, indented by the list level and not put on a new line |
| Markdown.WalkBracketed | src/actions/scrape.rs:396-462 | links and inline styles bracket what their children emit behind a non-newline |
| Markdown.WalkThen | src/actions/scrape.rs:471-482 | table cells, rows and tables: the children in the buffer's own context, then a space or a newline |
| Markdown.WalkElement | src/actions/scrape.rs:305-495 | context lemma for the whole recursive walker: it panics iff the kernel of the target does on one of the texts collapsed below; otherwise it only appends, what it appends depends on the buffer only through whether that ends in a newline, and the list depth on exit is that on entry |
| MarkupLaws.Headings | src/actions/scrape.rs:307-318 | h1 to h6 begin with one to six `#` and a space, and one empty line stands behind them |
| MarkupLaws.Paragraphs | src/actions/scrape.rs:319-325 | a paragraph is its children and the end of the block |
| MarkupLaws.RuleAndBreak | src/actions/scrape.rs:326-327 | hr is three dashes and an empty line, br a newline |
| MarkupLaws.Quotations | src/actions/scrape.rs:328-337 | a blockquote is, behind "> ", each of the lines its inner text falls into at newlines, with or without a carriage return |
| MarkupLaws.Fences | src/actions/scrape.rs:338-349 | pre is all texts below, in one piece, between fences on lines of their own |
| MarkupLaws.CodeMarks | src/actions/scrape.rs:350-358 | code and kbd are their trimmed direct texts between backquotes |
| MarkupLaws.UnorderedLists | src/actions/scrape.rs:359-371 | each li of a ul is the indent, "- ", its children and a newline |
| MarkupLaws.OrderedLists | src/actions/scrape.rs:372-387 | the k-th element child of an ol is the indent, k in decimals, ". ", its children and a newline |
| MarkupLaws.DigitsMeaning | src/actions/scrape.rs:379 | those decimals are digits without a leading zero and read as the number |
| MarkupLaws.ListItems | src/actions/scrape.rs:388-395 | a li by itself, with two spaces for each level but the first |
| MarkupLaws.Links | src/actions/scrape.rs:396-404 | a link is its children in brackets and its href in parentheses |
| MarkupLaws.LinkReadsBack | src/actions/scrape.rs:396-404 | round trip: a reader gets text and href back if and only if the text does not contain the mark between them |
| MarkupLaws.ImageReadsBack | src/actions/scrape.rs:405-415 | round trip: a reader gets alt and src back under exactly the same condition on alt |
| MarkupLaws.FrameReadsBack | src/actions/scrape.rs:464-469 | round trip: a reader gets the address of an iframe back |
| MarkupLaws.Frames | src/actions/scrape.rs:464-469 | and an iframe without one writes nothing |
| MarkupLaws.InlineMarks | src/actions/scrape.rs:416-462 | the marks of strong, b, em, i, del, s, q, sub and sup |
| MarkupLaws.TableMarks | src/actions/scrape.rs:471-482 | td and th end in a space, tr and table in a newline |
| MarkupLaws.SkippedWriteNothing | src/actions/scrape.rs:432-434 | the thirteen skipped elements write nothing |
| MarkupLaws.OthersAreTransparent | src/actions/scrape.rs:484-493 | every other element writes what its children do |
| MarkupLaws.TextChild | src/actions/scrape.rs:294-299 | a text node writes its collapsed text unless that is empty or one space |
| MarkupLaws.ElementChild | src/actions/scrape.rs:291-293 | children are written one after the other |
| MarkupLaws.ListDocuments | src/actions/scrape.rs:505-515 | from the tree to the finished Markdown: a ul of one word is "- " and the word, an ol "1. " and the word |
| ContextIndependence.ElementInContext | src/actions/scrape.rs:305-495 | and even that bit changes nothing but newlines: any two buffers receive the same glyphs, newlines aside |
| DomToMarkdown.SqueezeNewlines | src/actions/scrape.rs:260-282 | the byte loop keeps the first two newlines of every run and all else, and no slice can fail |
| DomToMarkdown.CleanupMd | src/actions/scrape.rs:254-286 | the buffer becomes the cleaned-up text, the early return on an empty one included |
| DomToMarkdown.DomToMarkdownDoc | src/actions/scrape.rs:505-515 | panics iff the kernel of the target does on one of the texts collapsed; otherwise the result is the cleanup of what the root's element children emit into an empty buffer at depth zero |
| DomToMarkdown.MainToMarkdownDoc | src/actions/scrape.rs:524-538 | the same for the first main element, or the whole document if there is none |
| DomToMarkdown.EmitContent | src/actions/scrape.rs:305-495 | element by element, the content written is that of the text nodes shown, through quoting, trimming and dropped texts, and markup is never mistaken for it |
| DomToMarkdown.QuoteKeepsContent | src/actions/scrape.rs:331-335 | cutting a buffer into lines and quoting them loses no content |
| DomToMarkdown.ContentIsConserved | src/actions/scrape.rs:505-515 | content conservation: the non-whitespace characters of the final Markdown that came from text nodes are exactly the non-whitespace characters of the shown text nodes, in document order and each once |
| DomToMarkdown.MainContentIsConserved | src/actions/scrape.rs:524-538 | content conservation for a main element alone |
| DomToMarkdown.DocumentIsClean | src/actions/scrape.rs:505-515 | no final Markdown has a run of three newlines or outer whitespace, and another cleanup changes nothing |
| DomToMarkdown.BlockquoteRoundTrip | src/actions/scrape.rs:328-337 | stripping "> " from what a blockquote emits gives back exactly the lines of its inner buffer, nested quotes included |
| PlainText.TextWalkElement | src/actions/scrape.rs:563-580 | the walker panics iff the kernel of the target does on a visited text, trimmed; otherwise it appends the non-empty words of the visited texts, each behind a separator unless the buffer is empty |
| PlainText.HtmlToText | src/actions/scrape.rs:542-557 | panics iff the kernel of the target does on a visited text, trimmed; otherwise the result is the single-space join of the non-empty trimmed and collapsed visited texts in document order, so the final trim changes nothing |
| PlainText.TrimInPlace | src/actions/scrape.rs:550-556 | truncating and draining is trimming at both ends |
| PlainText.PlainTextMeaning | src/actions/scrape.rs:540-557 | the result is trimmed, has no two adjacent ASCII whitespace characters, and its non-whitespace characters are those of the visited texts, in order and each once |
| PlainTextLaws.ContributionByName | src/actions/scrape.rs:559-566 | script, style, nav, footer, aside and head contribute nothing to the plain text, every other element what its children do |
| PlainTextLaws.SkippedCanBeTakenOut | src/actions/scrape.rs:559-580 | taking such an element out of a document does not change its plain text |
| PlainTextLaws.TwoTexts | src/actions/scrape.rs:568-575 | the words of two texts are joined by one space, whatever whitespace stands around and between them |
| Agreement.WalkersAgree | src/actions/scrape.rs:290-580 | where nothing that the plain-text walker passes by holds a text to show below `pre` or directly under `ol`, the texts shown as Markdown, and the letters of the final Markdown, are a subsequence of those of the plain text |
| Agreement.AgreeIffPlaced | src/actions/scrape.rs:290-580 | for every document: each text node shown as Markdown is visited for the plain text if and only if the document is so, and then they come in the same order |
| Agreement.PositionsMeaning | src/actions/scrape.rs:290-580 | the positions by which text nodes are told apart: both walkers take texts in document order and each at most once, and the positions are where those texts stand among all texts of the tree |
| Agreement.PreShowsScripts | src/actions/scrape.rs:338-349 | a script below `pre` is shown as Markdown but is no plain text |
| Agreement.PreShowsTemplates | src/actions/scrape.rs:338-349 | so is the content of a template below `pre` |
| ConversionPanics.CollapsedAreShown | src/actions/scrape.rs:290-495 | only texts that are shown can make the conversion to Markdown panic |
| ConversionPanics.OnlyX86Trips | src/actions/scrape.rs:74-250 | and only on x86_64, without the intended shift |
| ConversionPanics.ParagraphTrips | src/actions/scrape.rs:290-580 | a paragraph whose text stalls the kernel makes both conversions panic |
| ConversionPanics.LongWordPanics | src/actions/scrape.rs:129-149 | in particular one that begins with fifteen ASCII characters without whitespace and a space, in both overflow modes |
| ConversionPanics.LongWordExample | src/actions/scrape.rs:129-149 | a concrete such paragraph |
| ConversionPanics.LongWordFails | Cargo.toml:107-112 | asking for the Markdown of a page with that paragraph fails on x86_64 in both profiles |
| TokenBuckets.TokenBucket.constructor | src/ratelimit.rs:16-26 | for any rate, a new bucket is full and holds at least one token |
| TokenBuckets.TokenBucket.TryAcquire | src/ratelimit.rs:28-43 | takes a token exactly if one is there after refilling up to the capacity; the object's history stays a run of greedy decisions, so that all lemmas below hold of it at every moment |
| TokenBuckets.AvailableIsLeastBudget | src/ratelimit.rs:32-39 | closed form: the tokens a call finds are the least, over all earlier calls, of capacity plus refill since then minus calls accepted since then, attained at one that found the bucket full |
| TokenBuckets.AcceptsIffFits | src/ratelimit.rs:28-43 | a call is accepted if and only if it fits every window that ends with it |
| TokenBuckets.DrawsIffWithinWindows | src/ratelimit.rs:28-43 | a schedule never overdraws the bucket if and only if every window between two calls holds at most capacity + rate * elapsed accepted calls |
| TokenBuckets.WindowBound | src/ratelimit.rs:28-43 | the calls accepted from call i to call k number at most capacity + rate * (t_k - t_i) |
| TokenBuckets.RefusalHasAWindow | src/ratelimit.rs:37-42 | every refusal has an earlier call that found the bucket full and since which more than capacity - 1 + rate * elapsed calls were accepted |
| TokenBuckets.NeverBehind | src/ratelimit.rs:28-43 | tokens plus accepted calls of the greedy bucket are at no point less than those of any other policy |
| TokenBuckets.GreedyIsOptimal | src/ratelimit.rs:28-43 | at every point of every run it has accepted at least as many calls as any schedule within the same windows |
| TokenBuckets.UnlimitedAcceptsAll | src/ratelimit.rs:29-31 | rate zero accepts every call |
| BucketLaws.BurstIsAccepted | src/ratelimit.rs:16-43 | the first call is accepted at any rate, and so is every call up to the rate however fast they come |
| BucketLaws.WindowInNumbers | src/ratelimit.rs:16-43 | the calls accepted in a window number at most the larger of one and the rate, plus the rate times the window's seconds |
| BucketLaws.PausesAreRewarded | src/ratelimit.rs:33-42 | a call is accepted if the rate has brought a whole token since the call before |
| HttpGate.HttpState.HandleRpc | src/http.rs:93-135 | authenticate, then draw, then parse: which status each request gets and what becomes of the shared bucket |
| HttpGate.AlikeLater | src/ratelimit.rs:33-36 | refilling in two stages is refilling at once |
| HttpGate.TurnedAwayDoNotInterfere | src/http.rs:98-135 | deleting any choice of requests answered 401 or 429 from any timed trace changes no other answer, whatever level of the same worth it starts from |
| HttpGate.DeletingTurnedAway | src/http.rs:98-135 | the same for a trace and its own starting level |
| GateLaws.AcceptedHeaders | src/server.rs:115-122 | the accepted headers are exactly the expected token, or "Bearer ", whitespace and the token, with whitespace around, and which tokens cannot be presented in which way |
| GateLaws.StatusByNumber | src/http.rs:98-136 | 401 iff the token is wrong; 429 iff it is not and the bucket lacks a token; 400 iff neither and the body is no request; else 200 |
| PagePool.StepKeepsPermits | src/browser.rs:72-111 | every step, crashes and cancellations included, keeps free plus held permits equal to the maximum |
| PagePool.StepKeepsBrowser | src/browser.rs:84-93 | every step keeps: only the recorded browser has a live handler, and launches equal exits plus live handlers |
| PagePool.StepKeepsLock | src/browser.rs:82-108 | every step keeps: the lock is held by exactly the worker in the critical section |
| PagePool.StepKeepsSections | src/browser.rs:90-106 | every step keeps: nothing is overwritten by a launch, and there is a browser wherever a tab is opened |
| PagePool.PoolSafety | src/browser.rs:72-187 | in every reachable state permits are conserved, pages are at most the maximum, one worker holds the lock and has a permit, at most one browser is alive, launches are at most one more than handler exits, and the "failed to launch" error is unreachable |
| PagePool.LaunchesIffNoneAlive | src/browser.rs:84-93 | a worker that gets the lock launches if and only if no handler is alive, and otherwise reuses the live one |
| PagePool.StepUses | src/browser.rs:72-187 | every step, crashes and cancellations included, strictly lowers what the workers and live handlers have left to do |
| PagePool.Progress | src/browser.rs:72-111 | with at least one page a state that keeps the invariant, so every reachable one, has an enabled worker step until all workers have finished |
| PagePool.PoolCompletes | src/browser.rs:72-187 | n workers make at most 7n events, and a run no worker can continue has finished them all, every permit back and the lock free |
| PoolAccounts.StepPhases | src/browser.rs:72-187 | from which phase to which each event takes its worker, and that it leaves all others where they are |
| PoolAccounts.PageAccount | src/browser.rs:95-110 | a tab that opened adds one page, a page closed, dropped or held by a cancelled worker is one less, and no other event changes their number |
| PoolAccounts.PermitAccount | src/browser.rs:75-110 | which events take a permit and which give one back |
| PoolAccounts.LockAccount | src/browser.rs:82-108 | who takes the state lock and when it is given back |
| PoolAccounts.RunAccount | src/browser.rs:72-187 | over a run, the pages out are the tabs that opened less those given back |
| PoolAccounts.HadAPage | src/browser.rs:72-187 | a worker that ends without a failure of its own or a cancellation has had a page: its tab opened and it used the page |
| PoolAccounts.FirstPage | src/browser.rs:72-111 | the first worker can launch the browser and get a page, with one permit taken, the lock free and one live browser |
| PagePool.ProgressNeedsAPage | src/browser.rs:72-111 | progress for every number of workers holds if and only if the maximum is at least one |
| PagePool.ConfiguredPoolCompletes | src/config.rs:266-270 | whatever number of pages is asked for, zero included, and on any number of processors, every run of the configured pool is bounded and either some worker can go on or all have finished with every permit back |
| PoolAccounts.ConfiguredPagesMeaning | src/config.rs:266-270 | the pages asked for, or else the larger of four and twice the processors |
| LineReader.Reader.FillBuf | src/server.rs:44-48 | a read shows a prefix of the bytes still to come, nothing only at end of file, or an interrupt or an error |
| LineReader.NewlineFound | src/server.rs:57-66 | a newline in the chunk at hand ends the stream's first line, whatever came before it |
| LineReader.NoNewlineYet | src/server.rs:67-78 | without one the whole chunk belongs to the first line, which is too long as soon as the cap is passed |
| LineReader.ReadLineCapped | src/server.rs:34-92 | for every cutting into chunks, with interrupts: Eof iff the stream is empty, Line iff the first line or tail fits and no error cuts it off, else TooLong or the error; the line is a prefix of the stream and the rest is left; the buffer never exceeds the cap and nothing behind the first newline is consumed |
| LineLaws.LineEndsAtNewline | src/server.rs:57-66 | the byte 0x0A ends a line and counts for the cap: a line of exactly the cap is read, one byte more is too long |
| LineLaws.LastLine | src/server.rs:49-56 | without one, what is left is a line at the end of the file |
| Conformance.ReplyConformsIff | src/server.rs:201-251 | the reply to a served line is the one that sections 4, 4.1, 5 and 5.1 of JSON-RPC 2.0 require if and only if the line is no JSON, a notification, or a Request object whose id is not null and that calls no missing tool |
| Conformance.MissingMethod | src/server.rs:264-279 | a request is answered by -32601 if and only if its method or the tool it calls is not there |
| Conformance.LineConformsIff | src/server.rs:154-199 | line by line, with what the session writes for each: a served line conforms iff it is such; the over-long one iff it is a Request object with a null id and an existing method; one behind it or cut off by an error iff it is a notification |
| Conformance.AnswersAreWritten | src/server.rs:154-199 | those answers, one after the other, are what the session writes |
| Conformance.OverlongRequestIsDisowned | src/server.rs:184-199 | an over-long request is answered under another id than its own |
| Conformance.SessionConformsIff | src/server.rs:154-199 | a client can assign the responses of a whole session, the oversize error included, to its lines as required if and only if: without an over-long line, all lines served are such and a line cut off by an error is a notification; with one, the last line that is owed anything is a call with a null id, all lines served before it are such, and all others are notifications |
| Conformance.HandledSessionConforms | src/server.rs:154-199 | a session in which each line gets what is required passes with the client |
| Conformance.OversizeStandsIn | src/server.rs:167-170 | a session that passes although none of its lines gets what is required: the oversize error stands in for the reply to a dropped ping |
| Conformance.HttpConformsIff | src/http.rs:128-150 | the HTTP replies conform if and only if the body is a Request object with an id, null included, that calls no missing tool |
| Conformance.ServerResponses | src/errors.rs:42-56 | the server never answers -32600, and on requests it stays short of the responses owed unless no id is null |
| Conformance.NullIdIsDropped | src/protocol.rs:4-11 | a request with an explicit null id gets no reply, where the specification requires one |
| Conformance.NonRequestIsParseError | src/server.rs:129-135 | JSON that is no request gets -32700, where the specification requires -32600 |
| Session.RunStdio | src/server.rs:154-180 | what the session writes is a function of the bytes that arrive and how they end, and not of how they are cut |
| ReplyLaws.ResultByName | src/server.rs:264-279 | initialize gets the handshake of that request, tools/list the tools list, logging/setLevel an empty object, ping and notifications/... null, and any other method but tools/call -32601 |
| ReplyLaws.CallByTool | src/server.rs:373-420 | a call gets its tool's result, the timeout payload if that takes too long, -32602 without a tool name and -32601 for a missing tool |
| ReplyLaws.AnswerByName | src/server.rs:201-251 | from the line to the answer the session writes for it |
| ReplyLaws.OtherAnswers | src/server.rs:154-199 | what is no request gets -32700 and the first over-long line -32602, under the id null; nothing is written for the lines behind |
| ReplyLaws.ToolsListStaysApart | src/server.rs:264-279 | with another tools list only the results of tools/list change |
| Session.SplitMeaning | src/server.rs:34-92 | the lines concatenate back to the stream, a newline stands only at the end of a line, and only the last may lack it |
| Session.TranscriptIsPerLine | src/server.rs:154-199 | the transcript is one reply for each line that wants one, in order, up to the first line over the cap, which gets one oversize error and ends it |
| Session.ServedCount | src/server.rs:163-178 | the lines served are those before the first that is too long or cut off by an error |
| Session.RepliesEchoIds | src/server.rs:201-251 | the ids of the responses are those of the lines taken for requests, one to one and in order, and every response has exactly one of result and error |
| Redirects.ReadCapped | src/client.rs:114-140 | Ok with the concatenation iff the bytes are within the cap and the stream does not break; too large iff the bytes before any break exceed the cap, however they are cut |
| Redirects.FetchPage | src/client.rs:41-109 | the loop returns what the walk over the hops comes to, and requests go to exactly the URLs of that walk |
| Redirects.FetchHeaders | src/actions/fetch.rs:15-75 | the same for its own loop, with requests to the same URLs on the same replies |
| Redirects.SentIsAChain | src/client.rs:44-91 | at most max + 1 requests, each to the URL joined from the one before by its redirect and accepted by validation in this run |
| Redirects.PageMeaning | src/client.rs:66-108 | success iff the last reply is a success whose body fits, returned under the last URL; too many redirects iff the hops ran out on a redirect; the error behind the loop is never returned |
| Redirects.HeadMeaning | src/actions/fetch.rs:20-74 | the two loops compared: headers succeed on the URL where the page was answered, fail with the last redirect's bad target where the hops ran out, and otherwise fail alike |
| Redirects.MoreHops | src/client.rs:44-91 | a larger limit changes nothing unless the hops ran out, and then the same URLs are asked first |
| Redirects.FetchSafety | src/client.rs:41-109 | for all replies and validation answers: bounded and validated requests, a body within the cap, the headers under the page's URL, and no trailing error |
| FetchLaws.ReplyByStatus | src/client.rs:64-102 | by number: 200 to 299 is a page, 300 to 399 a redirect that is followed while hops are left, all else an error for the page and a result for the headers |
| FetchLaws.FailureByKind | src/client.rs:45-62 | a missing client, a missing answer and a refused connection, each with its error and whether a request was sent |
| FetchLaws.RedirectTarget | src/client.rs:72-88 | where a redirect leads, or why it leads nowhere |
| FetchLaws.CapInBytes | src/client.rs:124-129 | a body of exactly the cap passes, one byte more does not |
| FetchLaws.BytesOfPieces | src/client.rs:121-131 | the pieces are put together in order |
| WebMap.Collector.Consider | src/actions/map.rs:36-61 | after each URL the candidates are the first `limit` wanted distinct URLs seen so far, each marked as needing DNS iff its host is not the start host |
| WebMap.Map | src/actions/map.rs:63-112 | the output is the accepted subsequence of the candidates from sitemap, then page, one per line, or "No URLs discovered." |
| WebMap.CandidateIff | src/actions/map.rs:36-61 | a URL is a candidate iff it was found, is in scope and matches, and fewer than `limit` different such URLs were found before it |
| WebMap.MapMeaning | src/actions/map.rs:89-102 | at most `limit` URLs, in order of first discovery and without repetition, exactly those candidates on the start host or accepted by validation |
| MapLaws.ScopeByHost | src/actions/map.rs:116-118 | in scope are the start host and, if asked for, the hosts that are something, a dot and the start host |
| MapLaws.ScopeExamples | src/actions/map.rs:116-118 | three hosts, one of which merely ends like the start host |
| MapLaws.WantedMeaning | src/actions/map.rs:36-61 | what makes a URL wanted, with the search as a part of the text in lower case, and when it needs a DNS answer |
| WebScrape.Scrape | src/actions/scrape.rs:587-681 | an unknown format is refused; otherwise the text is the join of the sections, each the one a full copy of the body would give although the body is moved out on the way, or "No content found" if that is empty; if a section panics, the task fails in a debug build and the process ends in a release build; the parsed document is there wherever it is expected |
| ScrapeLaws.KnownNames | src/actions/scrape.rs:593-607 | the five names that are accepted |
| ScrapeLaws.SectionByName | src/actions/scrape.rs:641-669 | the section that each name gives, with and without the main content only |
| WebScrape.FailsIff | src/actions/scrape.rs:616-674 | a section panics if and only if Markdown is asked for and the kernel of target and profile does on one of the texts collapsed in the page or its main element; so never but on x86_64 |
| WebScrape.LastRaw | src/actions/scrape.rs:628-637 | the last format that wants the raw body, none after it |

## Left out

- HTML parsing, CSS selectors, XML, URL parsing and joining, JSON: trees, strings and results are inputs or abstract functions.
- Network, DNS, TLS and Chrome: their answers are arbitrary. Log lines, error message texts and buffer capacities are not modelled.
- TokenBuckets.TokenBucket.TryAcquire: numbers are real, so rounding of `f64` is not modelled; the clock never runs backwards, as `Instant` promises.
- TokenBuckets.AvailableIsLeastBudget: this and the other results on runs are for rates that are not negative, as the configuration sees to (src/config.rs:255); the bucket itself is modelled for any rate.
- HttpGate.HttpState.HandleRpc: the answers behind a parsed body are one status; the comparison's constant time is not modelled.
- Markdown.WalkElement: list depth, item numbers and newline counts are unbounded, so overflow of a `u32` by a tree of that size is not modelled; nor is the stack, which a document nested deep enough exhausts, so that "panics exactly on" is about documents that fit it; after a panic the contracts say nothing of the buffer, which is lost.
- VectorKernels.CollapseSse2: registers are sequences of bytes and masks are numbers; memory loads are not modelled.
- LineReader.ReadLineCapped: `out`, the lossy decoding of the line, is a parameter of `Session` instead; the idle-timeout wrapper, used by tests only, is left out.
- Session.RunStdio: tools are taken to return; a panic that ends the process ends the session there. Errors in writing a response are swallowed by the source and left out here; messages of errors made by the session itself are shortened.
- PagePool.PoolSafety: speaks of permits and live page handles, not of Chrome's tabs, since a screenshot can return without closing its tab (src/actions/browser.rs:212-216); fairness of the semaphore and of the lock is not modelled, and a closed semaphore does not occur.
- Redirects.FetchPage: decoding of the body and the texts of errors are left out; `validate_url` and `client_for` are arbitrary answers.
- WebMap.Map: the two page fetches and their parsing are inputs; the concurrency of validation is not modelled because its answers come back in order.
- The selection of the main element, `extract_main_doc`, `collect_links` and the sitemap reader: library code, taken as functions.
- Search providers, configuration, tool tables, validation of addresses, TLS and CORS: plumbing or finite tables.
- `web_search_scrape`: its sections come in completion order, so nothing is claimed about them.
