# Read Aloud Pro: segmentation, playback and readability, in Dafny

This project models the two sequential cores of the Read Aloud Pro browser
extension and proves properties of them.

1. **The reader controller** (`extension/content/content-script.js`).
   - Segmentation splits the page text into sentences with the pattern
     `[^.!?]+[.!?]+`. It falls back to the whole text, trims each sentence
     and drops empty ones. It then splits the current sentence into
     maximal runs of non-whitespace.
   - The playback state is a record: reading and paused flags, the sentence
     and word indices, the sentences, the words, and the current utterance.
     There is one transition per command (start, read selection, stop,
     toggle, skip next, skip previous, a settings panel change, the popup's
     settings message) and one per
     speech-engine callback (boundary, end, error).
   - Each transition returns the new state and the actions it asks of the
     engine and the highlighting: `Cancel`, `PauseEngine`, `Speak`,
     `ClearHighlight`, `Highlight`.
   - `extractArticleContent` decides which text is read.
2. **The readability heuristics** (`extension/content/readability.js`).
   - The three-signal "probably readerable" test.
   - Metadata: title, excerpt, byline, direction and site name, each taking
     the first candidate that succeeds.
   - The content-selection cascade: a single `article`, then the first
     qualifying container selector, then the largest close-paragraph group,
     then the body.
   - Paragraph grouping by rectangle closeness.
   - The header, footer and sidebar ancestor walks.

The document is a flat sequence of elements. Each element has a tag, an id,
a class attribute, attributes, its text, a computed-style summary, a
rectangle and a parent index smaller than its own. `querySelectorAll` is
modelled as the increasing sequence of selected indices. A document also
records whether it is displayed in a browsing context. The copy that
`document.cloneNode(true)` makes is not: it has no location, and no layout,
so every element has zero height and a zero rectangle.

Modules follow the program's structure:

| file | contents |
|---|---|
| `wrappers.dfy` | `Option`, `Result` |
| `text.dfy` | whitespace, `trim`, `\S+` words, `includes`, `split`/`join` |
| `segmenter.dfy` | the sentence pattern, `processText`'s sentence list |
| `segmenter_examples.dfy` | worked examples |
| `boundary.dfy` | the character-index to word-index scan of `handleBoundary` |
| `dom.dfy` | the abstract document, selectors, queries, first-match loops, ancestor walks |
| `grouping.dfy` | `_areElementsClose`, `_groupParagraphs`, the largest-group loop |
| `readability.dfy` | the readability heuristics and `parse` |
| `readability_examples.dfy` | worked examples of the site-name rule and a bare page |
| `extraction.dfy` | `extractArticleContent` and the reader object's property lookup |
| `playback.dfy` | the controller's state, transitions and event dispatch |
| `playback_lemmas.dfy` | the controller's invariant and behaviour |

The event dispatcher `Playback.Handle` is the program as written:
- `StartReadingAsWritten` reads what `ExtractArticleContent` returns, which is always the body.
- `HandleBoundaryAsWritten` uses the word-index scan `WordIndexAt`.
- The popup's settings message re-applies the stored settings, because
  `updateSettings` takes no parameter and the message's settings are dropped.

`Playback.HandleIntended` dispatches to the corrected members from the
findings below instead:
- `StartReading` reads the article that `parse` selects.
- `HandleBoundary` uses the clamped word index.
- The popup's settings message stores the popup's settings before they are
  re-applied.

Lemmas relate each corrected member to the one as written.

`Extraction.ParseAsWritten`, `Extraction.ParseIntended` and
`Extraction.Fallback` are helpers: they name the two readers built on the
clone and the fallback result, and the rows for `ExtractWith`,
`ExtractArticleContent`, `ExtractIntended` and the extraction lemmas state
what they produce.

## Model

| member | source | states |
|---|---|---|
| Text.TrimSpec | extension/content/content-script.js:175-177 | `trim` removes exactly the leading and trailing whitespace: the result is a contiguous slice of the input, what it cuts off is all whitespace, its first and last characters are not whitespace, and it is empty exactly when the input is all whitespace |
| Text.TrimIdempotent | extension/content/content-script.js:175-177 | trimming a trimmed string changes nothing |
| Text.WordsShape | extension/content/content-script.js:196 | every word the `\S+` match returns is non-empty and free of whitespace |
| Text.WordsUnique | extension/content/content-script.js:196 | the words are determined by the text: any way of writing the text as whitespace gaps around non-empty whitespace-free words gives exactly those words, in order |
| Text.WordsDecompose | extension/content/content-script.js:196 | every text is its words interleaved with whitespace gaps; together with `WordsUnique`, the words are the maximal non-whitespace runs in order |
| Text.WordsOfJoinSpaced | extension/content/content-script.js:196 | splitting words joined by single spaces gives the same words back |
| Text.Contains | extension/content/readability.js:352-396 | `includes` holds exactly when the substring occurs at some position |
| Text.SplitPartsFree | extension/content/readability.js:239 | no part of `split('.')` contains a dot |
| Text.JoinSplit | extension/content/readability.js:239 | joining the parts of `split` with the separator gives the string back |
| Segmenter.MatchesShape | extension/content/content-script.js:172 | every match of the sentence pattern is a non-empty run of non-terminators followed by a non-empty run of terminators |
| Segmenter.MatchesLayout | extension/content/content-script.js:172 | the text is: leading terminators, then the matches in order, then a tail without any terminator |
| Segmenter.MatchesUnique | extension/content/content-script.js:172 | the global match list is determined by that layout: any cut of the text into leading terminators, pattern-shaped pieces and a terminator-free tail gives exactly those pieces |
| Segmenter.HasMatchIff | extension/content/content-script.js:172 | the pattern matches at least once exactly when some non-terminator comes before some terminator |
| Segmenter.Sentences | extension/content/content-script.js:172-177 | every sentence is non-empty and equal to its own trim |
| Segmenter.SentencesOfMatches | extension/content/content-script.js:172-177 | when the pattern matches, the sentences are the trimmed matches, one per match, in order; text after the last terminator is dropped |
| Segmenter.SentencesWithoutMatch | extension/content/content-script.js:172-177 | with no match, the only sentence is the trimmed whole text, and there is none when the text is blank |
| Segmenter.SentenceHasWord | extension/content/content-script.js:172-196 | every sentence has at least one word |
| Segmenter.ResegmentJoined | extension/content/content-script.js:172-177 | non-empty trimmed sentences joined by single spaces segment back to themselves, when the first has the pattern's shape and each later one has it behind its space |
| Segmenter.Resegment | extension/content/content-script.js:172-177 | segmenting the single-space join of a text's sentences gives the same sentences, for every text without a match and for every text with one whose first sentence starts with a non-terminator |
| Segmenter.ResegmentUnmatched | extension/content/content-script.js:172-177 | a text without a match has at most one sentence, its trimmed self, which has no match either, so rejoining and resegmenting gives it back |
| Segmenter.SpacedTrimmedMatchShape | extension/content/content-script.js:172-177 | a trimmed match behind one space has the pattern's shape again, even when it starts with a terminator |
| SegmenterExamples.HelloWorldSentences | extension/content/content-script.js:172-177 | "Hello world. This is a test!" gives the two sentences "Hello world." and "This is a test!" |
| SegmenterExamples.HelloWorldWords | extension/content/content-script.js:196 | "Hello world." gives the words "Hello" and "world." |
| SegmenterExamples.ResegmentCanDropSentence | extension/content/content-script.js:172-177 | the resegmenting round trip fails when the first sentence starts with a terminator: the sentences of " .Hi." are "." and "Hi.", but their join ". Hi." resegments to "Hi." alone |
| Boundary.SpokenLengthMonotone | extension/content/content-script.js:788-790 | crediting more words never credits fewer characters |
| Boundary.WordIndexAt | extension/content/content-script.js:783-795 | within the credited characters, the word found covers the character index; past them, the index is 0; the result is a word of the sentence |
| Boundary.WordIndexIsLeast | extension/content/content-script.js:788-793 | the word found is the least one whose running total exceeds the character index |
| Boundary.WordIndexMonotone | extension/content/content-script.js:788-793 | within the credited characters, a later character never maps to an earlier word |
| Boundary.HelloWorldBoundary | extension/content/content-script.js:783-795 | in "Hello world." the boundary at character 6 highlights word 1 |
| Boundary.WordIndexResetsPastCredit | extension/content/content-script.js:783-795 | the as-written mapping is not monotone: for the words "a" and "b." index 2 maps to word 1 and index 5 to word 0 |
| Boundary.ClampedWordIndexMonotone | extension/content/content-script.js:783-795 | the clamped mapping never moves the highlight backwards as the index grows |
| Dom.QueryAll | extension/content/readability.js:257 | a query returns every selected element, only those, in increasing document order |
| Dom.SingleResult | extension/content/readability.js:257-260 | a query returns exactly one element when, and only when, that element is the only one selected |
| Dom.FirstPassing | extension/content/readability.js:133-140 | the first-match loop returns an element exactly when it is the first selected element in document order that passes the test, and none exactly when no selected element passes |
| Dom.FirstPassingUnique | extension/content/readability.js:133-140 | at most one element is the first to pass |
| Dom.CloneSelects | extension/content/content-script.js:135 | the clone of a document selects exactly the elements the document selects, in every scope |
| Dom.InRegionIff | extension/content/readability.js:352-396 | the header, footer and sidebar walks find a marker exactly when some element on the chain from the element up to, but not including, the body marks the region |
| Grouping.RectsClose | extension/content/readability.js:433-447 | two proper rectangles are close exactly when their horizontal extents share a column and the second's top is within 100 pixels of the first's bottom |
| Grouping.GroupParagraphs | extension/content/readability.js:401-428 | the groups concatenate back to the input, are non-empty, neighbours within a group are close, and the last of a group is not close to the first of the next |
| Grouping.GroupingUnique | extension/content/readability.js:401-428 | any partition with those four properties is the one `_groupParagraphs` builds |
| Grouping.Largest | extension/content/readability.js:318-323 | the largest-group loop returns a group at least as long as every other |
| Grouping.LargestIsEarliestMaximal | extension/content/readability.js:318-323 | because the comparison is strict, the chosen group is the earliest of maximal length |
| Readability.LongParagraphStats | extension/content/readability.js:80-86 | the count is the number of paragraphs longer than 100 trimmed characters, and the total is their trimmed lengths added up; each counted paragraph adds more than 100 |
| Readability.LongOnes | extension/content/readability.js:80-86 | the long paragraphs are exactly those of the list longer than 100 trimmed characters |
| Readability.LongParagraphStatsExtremes | extension/content/readability.js:80-86 | if every paragraph is long, all are counted; if none is, count and total are zero |
| Readability.IsProbablyReaderable | extension/content/readability.js:62-108 | readerable exactly when there is an article-like element, or at least 5 paragraphs of which at least 3 are longer than 100 characters and total over 500, or a content container holding at least 3 paragraphs |
| Readability.LongParagraphsReaderable | extension/content/readability.js:75-92 | five or more paragraphs, all longer than 100 characters, make a page readerable |
| Readability.BarePageNotReaderable | extension/content/readability.js:62-108 | a page with no article-like element, no content container and fewer than five paragraphs is not readerable |
| Readability.ArticleTitle | extension/content/readability.js:113-162 | the title is the JSON-LD headline, else the first title meta with content, else the non-empty document title, else the first heading of 11 to 99 trimmed characters, else empty |
| Readability.Excerpt | extension/content/readability.js:167-187 | the excerpt is the first description meta with content, else the first paragraph longer than 50 trimmed characters, else empty |
| Readability.Byline | extension/content/readability.js:192-216 | the byline is the JSON-LD author name, else the trimmed text of the first byline element of 1 to 99 trimmed characters, else null; it is never empty |
| Readability.Direction | extension/content/readability.js:221-223 | the direction is the document's `dir` attribute when set and non-empty, else "ltr" |
| Readability.FirstLabelUnique | extension/content/readability.js:239-244 | a host name has one first label |
| Readability.SiteName | extension/content/readability.js:228-250 | the site name is the first `og:site_name` meta's content; else the host's first label, or its second after "www"; a dotless host as it is; no host gives null |
| ReadabilityExamples.WwwSiteName | extension/content/readability.js:236-245 | "www.example.com" gives "example" |
| ReadabilityExamples.FirstLabelSiteName | extension/content/readability.js:236-245 | "news.example.org" gives "news" |
| ReadabilityExamples.PlainSiteNames | extension/content/readability.js:236-249 | "localhost" gives itself and an empty host gives null |
| Readability.QualifiesIff | extension/content/readability.js:288-294 | a container selector qualifies exactly when its only match holds at least three paragraphs |
| Readability.FirstQualifying | extension/content/readability.js:287-296 | the container loop picks the first selector, in list order, that qualifies, and none when no selector does |
| Readability.ContentParagraphs | extension/content/readability.js:303-310 | the filtered paragraphs are exactly those longer than 50 trimmed characters that are not hidden and not in a header, footer or sidebar |
| Readability.ContentParagraphsInOrder | extension/content/readability.js:303-310 | filtering keeps document order |
| Readability.NoLayoutNoContent | extension/content/readability.js:303-310 | in a document without layout every element is hidden, so no paragraph passes the filter |
| Readability.ClusterParagraphs | extension/content/readability.js:298-330 | clustering happens exactly when there are at least five paragraphs and at least three pass the filter; the clustered container is then non-empty, holds only content paragraphs, and neighbours in it are close |
| Readability.GrabArticle | extension/content/readability.js:255-336 | a single `article` element is chosen first; without one and with no qualifying container selector, the largest close group when the clustering guards hold and the body otherwise; conversely, a clone other than the body is the article or a qualifying container, and a new container comes only from clustering |
| Readability.FirstQualifyingIsFirst | extension/content/readability.js:287-296 | the container loop stops at the first selector that qualifies and returns its only match |
| Readability.GrabArticlePicksFirstQualifying | extension/content/readability.js:255-296 | without a single article, the only match of the first qualifying container selector is chosen |
| Readability.ContainerIsEarliestLargestRun | extension/content/readability.js:298-330 | with at least five paragraphs and at least three passing the filter, the clustered paragraphs are exactly the earliest largest group of the grouping of the filtered paragraphs, and with no single article and no qualifying container selector, `GrabArticle` returns a container of that group |
| Readability.TextOfAll | extension/content/readability.js:326-328 | a container's text is as long as its paragraphs' texts together |
| Readability.Parse | extension/content/readability.js:26-57 | a page that is not readerable yields the body with null byline and direction; otherwise the selected content; the title, excerpt, site name and language are always filled in, and the length is the text's length |
| Extraction.Lookup | extension/content/readability.js:8-21 | an own property of the instance shadows the class's method of the same name |
| Extraction.ParseOn | extension/content/readability.js:26-57 | `parse` succeeds exactly when the readerability lookup finds a method and the document either has a location or an `og:site_name` meta (otherwise `_getSiteName` reads `hostname` of null), and then returns the heuristics' article |
| Extraction.ExtractWith | extension/content/content-script.js:133-163 | a parsed article's title and text are used; a thrown error yields the document title and the body |
| Extraction.Construct | extension/content/readability.js:8-21 | the reader keeps the document it is given, and its memo property starts as `null` under the name chosen for it |
| Extraction.ExtractArticleContent | extension/content/content-script.js:133-163 | as written, extraction returns the page title, the body and the body's text |
| Extraction.ExtractIntended | extension/content/content-script.js:133-163 | with the memo under its own name, extraction returns the clone's metadata title and selected content on a page with a site-name meta, and the page title and body otherwise |
| Extraction.ExtractionAlwaysFallsBack | extension/content/content-script.js:133-163 | as written, `parse` throws on every document, so extraction always returns the document title and the body |
| Extraction.ExtractionIntendedUsesArticle | extension/content/content-script.js:133-163 | with the memo under its own name, `parse` on the clone succeeds exactly when the page has an `og:site_name` meta; then extraction returns the clone's metadata title and its selected content's text, and otherwise it falls back to the page title and body |
| Extraction.CloneNeverClusters | extension/content/content-script.js:135 | the clone has no layout, so no paragraph passes the filter and the clustering step never applies |
| Extraction.SingleArticleIgnored | extension/content/content-script.js:133-163 | a page with a site-name meta whose only `article` has text other than the body's reads the body as written, but the article as intended |
| Playback.FindVoice | extension/content/content-script.js:738-741 | the voice found is the first available voice with the URI, and there is one exactly when some voice has that URI |
| Playback.ChooseVoice | extension/content/content-script.js:737-745 | an utterance gets a voice only when a voice URI is selected and an available voice has it; otherwise the engine's default is kept |
| Playback.MakeUtterance | extension/content/content-script.js:727-745 | the utterance speaks the sentence with the current rate, pitch and volume and the chosen voice |
| Playback.Stop | extension/content/content-script.js:622-630 | stopping cancels speech, clears the highlight, clears both flags and both indices, and keeps the sentences and words |
| Playback.ProcessCurrentSentence | extension/content/content-script.js:192-201 | for a sentence in range, the words are that sentence's words and the word index is 0; out of range, no words and the word index as it was; nothing else changes |
| Playback.ProcessText | extension/content/content-script.js:169-187 | the sentences are the text's segmentation, both indices are 0, the first sentence's words are taken, and the flags, settings and voices are unchanged |
| Playback.SpeakCurrent | extension/content/content-script.js:721-757 | past the last sentence, speaking stops instead; otherwise it speaks the current sentence and records the utterance, without moving the position |
| Playback.BeginReading | extension/content/content-script.js:514-561 | starting stops first; reading begins, with the first sentence spoken, exactly when the text has a sentence |
| Playback.StartReadingAsWritten | extension/content/content-script.js:514-536 | as written, starting reads the body's text |
| Playback.StartReading | extension/content/content-script.js:514-536 | with the reader fixed, starting reads the text of the content selected on the clone when the page has a site-name meta, and the body's text otherwise |
| Playback.ReadSelectedText | extension/content/content-script.js:542-561 | reading a selection stops first, takes the selection's sentences and reads the first one exactly when there is one |
| Playback.Toggle | extension/content/content-script.js:654-666 | when paused, the toggle clears the pause flag and speaks the current sentence with the position unchanged, or stops past the last sentence; otherwise it sets the flag and pauses the engine, whatever the reading flag; the text and settings are kept |
| Playback.Continue | extension/content/content-script.js:681-693 | after the index moves, past the last sentence: stop; otherwise the new sentence's words from word 0, and it is spoken exactly when reading and not paused; the earlier actions come first |
| Playback.SkipNext | extension/content/content-script.js:671-694 | skipping forward cancels and clears the highlight, then moves to the next sentence from its first word and speaks it exactly when reading and not paused; from the last sentence it stops |
| Playback.SkipPrevious | extension/content/content-script.js:699-716 | skipping back cancels and clears the highlight, moves to max(0, i - 1) from its first word, and speaks exactly when reading and not paused |
| Playback.HandleBoundaryAsWritten | extension/content/content-script.js:779-800 | a "word" boundary highlights the word the scan finds, the first word past the credited characters; any other boundary changes nothing |
| Playback.HandleBoundary | extension/content/content-script.js:779-800 | with the clamped scan, a "word" boundary always highlights a word of the sentence; any other boundary changes nothing |
| Playback.HandleEnd | extension/content/content-script.js:805-825 | an utterance end clears the highlight and moves to the next sentence from its first word, speaking it exactly when reading and not paused; after the last sentence it stops |
| Playback.HandleError | extension/content/content-script.js:831-834 | an engine error cancels, clears the highlight, both flags and both indices, and keeps the text |
| Playback.Init | extension/content/content-script.js:16-40 | a fresh controller is idle, with no sentences and no utterance, and satisfies the controller's invariant |
| Playback.Run | extension/content/content-script.js:106-127 | a sequence of events, as written, never changes the voices; without a read command it keeps the sentences; without a settings panel change it keeps the settings |
| Playback.ApplySettings | extension/content/content-script.js:996-1010 | storing settings and calling `updateSettings` re-applies rate, pitch and volume to the current utterance, and its voice only when the selected voice is available |
| Playback.Handle | extension/content/content-script.js:106-127 | as written: only the two read commands change the sentences, a start reads the body's sentences, only a settings panel change changes the settings and emits nothing, the popup's settings message keeps the stored settings and emits nothing, a boundary changes only the word index, and the voices never change |
| Playback.HandleIntended | extension/content/content-script.js:106-127 | with the three corrections, the same frame holds, except that the popup's settings message stores the popup's settings, and a "word" boundary always lands on a word of the sentence |
| PlaybackProperties.HandleValid | extension/content/content-script.js:169-834 | every command and callback as written keeps the invariant: sentences are non-empty and trimmed, and while reading the index names a sentence whose words are loaded and the word index names one of them |
| PlaybackProperties.HandleIntendedValid | extension/content/content-script.js:169-834 | with the three corrections, every command and callback keeps the invariant too |
| PlaybackProperties.RunValid | extension/content/content-script.js:169-834 | any sequence of commands and callbacks, as written, from a valid state ends in a valid state |
| PlaybackProperties.StopIdempotent | extension/content/content-script.js:622-649 | stopping twice is the same as stopping once |
| PlaybackProperties.BeginReadingSpeaksFirst | extension/content/content-script.js:514-561 | starting cancels first, and reads, speaking sentence 0, only when there is a sentence |
| PlaybackProperties.BoundaryHandlersAgree | extension/content/content-script.js:779-800 | the two boundary handlers agree wherever the scan finds a word |
| PlaybackProperties.BoundaryStaysInSentence | extension/content/content-script.js:779-800 | while reading, a "word" boundary highlights a word of the sentence with either scan, because the sentence has words; any other boundary leaves the state as it was |
| PlaybackProperties.SkipNextMoves | extension/content/content-script.js:671-694 | skipping forward cancels first; before the last sentence it moves on by one and speaks only when reading and not paused; at the last it stops |
| PlaybackProperties.SkipPreviousMoves | extension/content/content-script.js:699-716 | skipping back cancels first, moves to max(0, i - 1) and speaks only when reading and not paused |
| PlaybackProperties.EndAdvancesByOne | extension/content/content-script.js:805-825 | an utterance end advances by exactly one sentence and speaks it when reading and not paused; at the end it stops |
| PlaybackProperties.ErrorStops | extension/content/content-script.js:831-834 | an engine error always stops and resets |
| PlaybackProperties.StaleEndSkipsTwo | extension/content/content-script.js:805-825 | nothing ties a callback to its utterance: a skip followed by the cancelled utterance's end moves two sentences |
| PlaybackProperties.ToggleTwiceRestartsSentence | extension/content/content-script.js:654-666 | the first toggle only pauses; the second speaks the current sentence again from its start |
| PlaybackProperties.ToggleSpeaksWhenIdle | extension/content/content-script.js:654-666 | with no guard, toggling twice from an idle controller speaks a sentence while the reading flag stays false |
| PlaybackProperties.PopupRateIgnored | extension/content/content-script.js:122-123 | as written, the popup's settings message keeps the stored settings, so the current utterance keeps the stored rate; with the correction the utterance takes the popup's rate |
| PlaybackProperties.SettingsKeepVoiceWhenMissing | extension/content/content-script.js:996-1010 | when the selected voice is unavailable, a settings update keeps the utterance's voice and still updates its rate |

## Left out

- Live-DOM highlighting is not modelled: `updateHighlighting`, `removeHighlighting`, `createWordElements`, `getTextNodesIn`, `escapeRegExp` and the controller's own `isElementHidden`. They mutate the page; the model only emits `Highlight` and `ClearHighlight`.
- The floating bar, settings panel, dragging, auto-hide timers and button state are UI and timers, not modelled.
- `readFromHere` and `getNextElement` depend on the focused element and on live sibling links; they are not modelled.
- `chrome.storage` and runtime messaging (`loadSettings`, the listener's registration, the save in `updateSettings`) are extension I/O. The messages the listener dispatches are events.
- The speech engine is left out. Its voices are a parameter; its callbacks are events; `speak`, `pause` and `cancel` are actions. Rate, pitch and volume are passed through as reals.
- Browser primitives in readability.js become fields of the abstract element: `getComputedStyle` as a style summary, `getBoundingClientRect` as a rectangle with real coordinates, text content, attributes and the parent link. JSON-LD is given already parsed (headline and author name, empty when absent), so `JSON.parse` failures are not modelled.
- `innerHTML` and element-level `cloneNode` are not modelled: content is a reference to the cloned element or the list of paragraphs a new container holds. The text of a new container is the concatenation of its paragraphs' texts. The document clone is modelled only as the same elements without layout or location; whether `getComputedStyle` of the page's window gives style values for its elements does not matter, because every `offsetHeight` is zero.
- The reader's options object and `_articleContent` are never read. `_articleTitle` is read at extension/content/readability.js:114, but `_getArticleTitle` runs at most once per `parse`, so that read always finds the constructor's null; the title cache is not modelled.
- Selector matching covers the selector forms the heuristics use: tag, class token, id, attribute value, and tag with attribute.
- Segmenter.Resegment: for a text with a match, the round trip is proved only when the first sentence starts with a non-terminator; `SegmenterExamples.ResegmentCanDropSentence` shows it fails otherwise.
- Boundary.WordIndexAt, Readability.LongParagraphStats, Readability.ContentParagraphs, Readability.Excerpt, Readability.ArticleTitle, Readability.Byline, Readability.Parse and Readability.TextOfAll: JavaScript string length counts UTF-16 code units; the model counts characters, so the length thresholds and the article length differ for text outside the Basic Multilingual Plane.
- Dom.HasClass: class tokens are split at JavaScript whitespace; CSS splits only at ASCII whitespace, so the two differ for class attributes holding other space characters.
- Playback.ApplySettings: `updateSettings` reads the controller's stored settings; the settings panel's assignment before the call (content-script.js:318-323 and the like) is modelled as part of the call.
- `popup.js`, `settings.js`, `service-worker.js` and `convert-icons.js` are extension wiring, UI pages and file I/O; they are not part of this model.

## Findings

| source | as written | input that shows it | evidently intended | confidence | as-written member | corrected member |
|---|---|---|---|---|---|---|
| extension/content/readability.js:20 | the constructor stores `null` under `_isProbablyReaderable`, which shadows the method of that name, so `parse` (line 27) calls `null` and throws, and `extractArticleContent` always falls back to the whole body | any page, e.g. one whose only `article` element holds the story while the body also holds navigation | the memo under a name of its own, so that `parse` runs the heuristics on the clone; that gives the selected article only on pages with an `og:site_name` meta, because on the clone `_getSiteName` otherwise reads `hostname` of a null location and throws, and because the clone has no layout the clustering step never applies | high, not executed | Extraction.ExtractionAlwaysFallsBack | Extraction.ExtractionIntendedUsesArticle |
| extension/content/content-script.js:122-123 | the listener passes the message's settings to `updateSettings`, which takes no parameter (line 996), so the popup's settings are dropped and the stored ones are re-applied | a popup message with rate 2.0 while the stored rate is 1.0: the current utterance stays at rate 1.0 | the popup's settings stored, then re-applied | high, not executed | Playback.Handle | Playback.HandleIntended |
| extension/content/content-script.js:783-795 | the scan credits each word its length plus one space and leaves the word index at 0 when the boundary is past the credited characters, so with wider gaps the highlight jumps back to the first word | the sentence "a    b." (four spaces): the engine reports "b." at character 5, and the words "a" and "b." credit only 5 characters, so word 0 is highlighted | past the credited characters the highlight stays on the last word, so it never moves backwards | medium, not executed | Boundary.WordIndexResetsPastCredit | Boundary.ClampedWordIndexMonotone |
