# Double Negative Replacer — a verified model of its rewrite engine

The userscript `double-negative-replacer.user.js` rewrites the text of a web
page. It has a fixed table of 19 double negatives ("not uncommon",
"don't disagree", …), each paired with a plain phrase ("common", "agree", …).
It walks the document body and does one of two things with each occurrence.

- **Ordinary text.** The phrase becomes a highlighted `span`. The span shows
  the plain replacement, and its tooltip says `Original text: '<phrase>'`.
- **Code-like content.** Inside `pre`, `code`, `script` or `style` elements,
  syntax-highlighting classes or link-preview widgets, the phrase stays as it
  is. It is wrapped in a `span` with a wavy underline, and the walk counts it
  as skipped.

Each run resets two counters and then counts every span it creates: one
counter for replacements, one for skipped matches.

The model covers the following parts of the script:
- the phrase table;
- the exclusion classifier (`isExcluded`);
- match discovery, one global case-insensitive `exec` loop per phrase;
- the stable sort by start offset;
- the splice loop that turns one text node into text pieces and spans;
- the two tree walks (`replaceInNode`, `countSkippedInNode`);
- the entry point (`replaceDoubleNegatives`) with its two counters.

Layout, module by module:

| module | what it holds |
|---|---|
| `Dom` | The document as a value: elements with tag, class, attributes and ordered children; text nodes; other nodes. |
| `Strings` | ASCII `toLowerCase` and `includes`, with two lemmas for showing that a string lacks a substring. |
| `Phrases` | The table, verbatim. |
| `Exclusion` | The classifier, as a predicate and as the method with the parent walk. |
| `Matching` | Match discovery and the sort. Each loop is a method proved equal to a reference function. The function's soundness, completeness, permutation and stability are proved as lemmas. |
| `Splice` | The pieces one text node becomes, and their laws. |
| `Traversal` | The two walks as functions returning the rebuilt nodes and the two counts, with the lemmas about them. |
| `Replacer` | Class `Page`, holding `document.body` and the two counters. Its methods are the script's functions and loops. Each method's `ensures` ties its result and its new counters to the `Traversal` functions. |
| `Rerun` | What a second run does to excluded content. |
| `Examples` | Worked instances, each from the whole table through discovery and the splice: the sentence "That is not uncommon." on both paths, and the overlapping matches in "not infrequently". |

### Behaviour of the code that the proofs bring out

Line numbers refer to `double-negative-replacer.user.js`.

**A second run is not idempotent on excluded content.**
- The underline span keeps the phrase as its text (line 128).
- A later run of `replaceDoubleNegatives` (lines 335-342, started again by
  the keyboard handler at lines 354-358) walks into that span through
  `countSkippedInNode` (lines 93-149).
- That walk finds the phrase again, wraps it in another span and counts it
  again.
- `Rerun.ExcludedRerunChanges` proves this for every excluded element that
  holds a phrase.
- Replaced phrases do leave the text: the active span shows the replacement
  (line 196).

**Overlapping matches duplicate text.**
- The matches are sorted by start only (lines 114 and 182).
- The splice loop (lines 117-139 and 185-214) emits a span for every match
  and sets its cursor to each match's end (lines 132 and 201), even when
  that end lies before the cursor.
- So two matches that overlap both produce their spans.
- "not infrequent" and "not infrequently" both match "not infrequently" at
  offset 0 (`Examples.InfrequentlyDiscovered`). The text becomes "frequent"
  followed by "frequently", which reads "frequentfrequently"
  (`Examples.InfrequentlyTwice`).
- The text round trips are therefore proved only when no two matches overlap:
  `Traversal.TextRoundTrips` for one text node, and
  `Traversal.SkippedKeepsContent` for a whole excluded subtree.

**The class test is a case-sensitive substring test.**
- `className.includes(c)` (lines 58, 64, 78, 82) tests substring
  containment of the whole class string, with case.
- `"decode"` is marked, because it holds `"code"` (`Exclusion.ClassTestSubstring`).
- `"SourceCode"` is not marked, because it holds neither `"code"` nor
  `"sourceCode"` (`Exclusion.ClassTestCaseSensitive`).

**The parent walk tests a shorter tag list.** It checks only `pre` and
`code` (line 73), not `script` and `style` (line 51)
(`Exclusion.ScriptExcludesOnlyItself`).

## Model

| member | source | states |
|---|---|---|
| Phrases.KeysAreLiterals | double-negative-replacer.user.js:22-42 | Every key of the table is a non-empty string of lower-case ASCII letters, spaces and apostrophes. Compiling it as a `RegExp` pattern therefore matches the key literally. |
| Phrases.TableWellFormed | double-negative-replacer.user.js:22-42 | Every key is non-empty and already lower case, so the `i` flag and `Lower` agree on it. Every replacement is non-empty. |
| Strings.LowerAt | double-negative-replacer.user.js:50 | Lower-casing keeps the length and maps each character on its own. ASCII capitals become small letters; every other character is left alone. |
| Strings.Contains | double-negative-replacer.user.js:58 | `s.includes(t)` holds exactly when `t` occurs at some offset of `s`, case-sensitively. |
| Strings.LowerIdentity | double-negative-replacer.user.js:50 | A string with no ASCII capital is its own lower case. |
| Strings.Lower | double-negative-replacer.user.js:50 | `toLowerCase` on ASCII: it keeps the length (its own contract), and `LowerAt` and `LowerIdentity` give its meaning character by character. |
| Exclusion.IsExcluded | double-negative-replacer.user.js:48-90 | The method's answer (its early returns and its loop over the parents) equals `Excluded`. `Excluded` holds when any of the following is true: <br>• the element's own lower-cased tag is `pre`, `code`, `script` or `style`; <br>• its string class contains one of the six code markers or two link-preview markers; <br>• some parent has tag `pre` or `code`, or such a marked class. |
| Exclusion.MarkedClassIff | double-negative-replacer.user.js:56-67 | A string class is marked exactly when it contains one of `code`, `syntax`, `highlight`, `sourceCode`, `hljs` or `intralink-content`. The other two markers are implied by these. |
| Exclusion.NonStringClassIgnored | double-negative-replacer.user.js:56-85 | When no class involved is a string, exclusion depends on the tags alone. |
| Exclusion.ScriptExcludesOnlyItself | double-negative-replacer.user.js:70-87 | A `script` or `style` element excludes itself. It does not exclude a child that is not otherwise excluded. |
| Exclusion.Excluded | double-negative-replacer.user.js:48-90 | The classifier as a predicate: the element excludes itself, or some parent does. `IsExcluded` proves the script's method equal to it. `MarkedClassIff`, `NonStringClassIgnored`, `ScriptExcludesOnlyItself` and the two class-test lemmas below state its properties. |
| Exclusion.ClassTestSubstring | double-negative-replacer.user.js:58 | The class test is a substring test: the class `"decode"` is marked, because it contains `"code"`. |
| Exclusion.ClassTestCaseSensitive | double-negative-replacer.user.js:58 | The class test is case-sensitive: the class `"SourceCode"` is not marked, because it contains none of the markers, `"code"` and `"sourceCode"` included. |
| Matching.NextMatch | double-negative-replacer.user.js:102 | One `exec` from `lastIndex`. It returns the leftmost case-insensitive occurrence of the key at or after that offset, or nothing when none exists. |
| Matching.Occurrences | double-negative-replacer.user.js:102-108 | The offsets the `exec` loop reports for one key, as a reference definition. `OccurrencesSound`, `OccurrencesCover` and `OccurrencesEmptyIff` state that they are exactly the greedy left-to-right non-overlapping matches; `NextMatchStep` ties them to single `exec` calls. |
| Matching.MatchesAtIff | double-negative-replacer.user.js:100-102 | A key matches at an offset exactly when it fits there and each of its characters equals the text's character up to ASCII case (the `i` flag). |
| Matching.AbsentCharSilent | double-negative-replacer.user.js:100-102 | A key holding a character that, up to case, occurs nowhere in the text is never reported. |
| Matching.NoMatchBefore | double-negative-replacer.user.js:100-102 | No match of a key starts before an offset when the key's first character, up to case, does not occur before that offset. |
| Matching.SoleOccurrence | double-negative-replacer.user.js:102-108 | When the key matches at s, nowhere before s, and the text has no room for a second copy after it, `exec` reports s and nothing else. |
| Matching.OccurrencesSound | double-negative-replacer.user.js:102-108 | The successive `exec` results are occurrences within the text and strictly increasing. Each one starts at or after the end of the previous one. |
| Matching.OccurrencesCover | double-negative-replacer.user.js:102-108 | Completeness: every occurrence at or after the start is reported, or lies inside a reported occurrence that starts before it. |
| Matching.OccurrencesEmptyIff | double-negative-replacer.user.js:102 | The loop reports nothing exactly when the key occurs nowhere at or after the start. |
| Matching.NextMatchStep | double-negative-replacer.user.js:102-108 | One iteration: the occurrences from an offset are the next match followed by the occurrences after its end. |
| Matching.ToMatchesAt | double-negative-replacer.user.js:103-107 | The k-th record has the k-th start, end = start + key length, the matched characters as `original`, and the phrase's replacement. |
| Matching.PhraseMatchesSound | double-negative-replacer.user.js:164-175 | Every record of one phrase is sound: it lies within the text, and its original equals some key up to case. The records of one phrase never overlap and come left to right. |
| Matching.MatchesUpToSound | double-negative-replacer.user.js:162-176 | Every record collected over the first n phrases is sound. |
| Matching.AllMatches | double-negative-replacer.user.js:162-176 | The records the loop over the whole table collects. `MatchesUpToSound` makes each one sound, `NoMatchesIff` makes the empty collection mean that no key occurs, `FindMatches` is the script's loop proved equal to it, and `OnlyPhrase`/`OnlyTwoPhrases` reduce it to the phrases that occur. |
| Matching.QuietRange | double-negative-replacer.user.js:164-176 | Phrases whose keys are never reported add no records to the collection. |
| Matching.OnlyPhrase | double-negative-replacer.user.js:162-176 | When only phrase t of the table occurs in the text, the collection is exactly phrase t's records. |
| Matching.OnlyTwoPhrases | double-negative-replacer.user.js:162-176 | When only phrases a and b occur, a before b in the table, the collection is a's records followed by b's. |
| Matching.SinglePhraseMatch | double-negative-replacer.user.js:168-175 | A phrase reported at a single offset s yields one record: start s, end s + key length, the text's own characters there as original, and the phrase's replacement. |
| Matching.PhraseMatchesStep | double-negative-replacer.user.js:168-175 | The step the `while` loop takes: push the found record and continue after it, or stop when `exec` finds nothing. |
| Matching.CollectPhrase | double-negative-replacer.user.js:164-176 | The inner `exec` loop for one phrase returns exactly that phrase's reference records. |
| Matching.FindMatches | double-negative-replacer.user.js:162-176 | The loop over the table, in table order, returns the records of phrase 0, then phrase 1, and so on. |
| Matching.NoMatchesIff | double-negative-replacer.user.js:111 | The collection is empty (the early return) exactly when no key occurs anywhere in the text, ignoring case. |
| Matching.InsertPermutes | double-negative-replacer.user.js:114 | Inserting one record adds exactly that record to the multiset. |
| Matching.InsertSorted | double-negative-replacer.user.js:114 | Inserting into a list sorted by start keeps it sorted. |
| Matching.InsertStable | double-negative-replacer.user.js:114 | Insertion keeps the relative order of records with equal start. |
| Matching.SortByStart | double-negative-replacer.user.js:114 | The sort by `a.start - b.start` returns records in non-decreasing start order. |
| Matching.SortPermutes | double-negative-replacer.user.js:114 | The sort is a permutation: the same multiset of records. |
| Matching.SortStable | double-negative-replacer.user.js:114 | The sort is stable: records starting at the same offset keep the table order. |
| Matching.Discovered | double-negative-replacer.user.js:162-182 | Every sorted record spans a non-empty range inside the text. |
| Matching.DiscoveredSound | double-negative-replacer.user.js:162-182 | The sorted records are a permutation of the collected ones, and each is sound for the text. |
| Splice.Title | double-negative-replacer.user.js:197 | The tooltip `Original text: '<o>'` reads back as exactly `o`, for every string `o`, quotes included. |
| Splice.Span | double-negative-replacer.user.js:194-198 | The span for one match: a `span` whose single text child is the replacement on the active path (lines 194-198) or the original on the excluded path (lines 126-130). Only the active span has a tooltip, and it is `Title` of the original, so the original can be read back. `SpanPerMatch` and `ActiveRestores` state what the spans of a whole splice are. |
| Splice.Spliced | double-negative-replacer.user.js:185-214 | The pieces the splice loop appends, as a reference definition. `SpanPerMatch` (one span per match, in order), `PlainPiecesNonEmpty`, `PathsAgreeOnGaps`, `SkippedKeepsText` and `ActiveRestores` state its properties, and `Replacer.Page.SpliceIn` is the loop proved equal to it. |
| Splice.PlainPiecesNonEmpty | double-negative-replacer.user.js:122-124 | Every text piece the splice puts out is non-empty. |
| Splice.SpanPerMatch | double-negative-replacer.user.js:120-134 | The spans among the pieces are exactly one per match, in match order, overlapping or not. |
| Splice.PathsAgreeOnGaps | double-negative-replacer.user.js:117-139 | Both paths give the same number of pieces. At each position they have the same plain text, and a span on one path sits where a span is on the other. |
| Splice.SkippedKeepsText | double-negative-replacer.user.js:117-139 | With chained, non-overlapping matches, the text content of the excluded-path pieces is exactly the text. |
| Splice.ActiveRestores | double-negative-replacer.user.js:185-214 | With chained matches, reading each active span's tooltip original in place of the span gives back exactly the text. |
| Traversal.CountSkipped | double-negative-replacer.user.js:93-149 | The excluded-content walk never counts a replacement. It turns an element into one element with the same tag, class and attributes, and leaves other nodes as they are. |
| Traversal.CountSkippedAll | double-negative-replacer.user.js:146-147 | Walking a snapshot of children never counts a replacement. |
| Traversal.ReplaceInAll | double-negative-replacer.user.js:219-222 | The main walk over a snapshot of an element's children, in order, joining their pieces and counts. `CountsPartitionAll` (replaced plus skipped is the children's match count), `ClearOnlyReplacesAll`, `UntouchedAll` and `SiblingsUnchanged` state its properties, and `Replacer.Page.ReplaceInChildren` is the loop proved equal to it. |
| Traversal.ReplaceIn | double-negative-replacer.user.js:152-227 | The main walk turns an element into one element with the same tag, class and attributes, and leaves other nodes untouched and uncounted. |
| Traversal.RewriteText | double-negative-replacer.user.js:159-217 | What a text node becomes: itself when no phrase occurs, else the splice of its sorted matches. `TextRoundTrips` and `RewriteTextSingle` state its properties, and `Replacer.Page.RewriteTextNode` is the script's branch proved equal to it. |
| Traversal.RewriteTextSingle | double-negative-replacer.user.js:179-214 | A text node with exactly one match becomes the text before the match (if any), its span, and the text after it (if any). |
| Traversal.SkippedCountsAll | double-negative-replacer.user.js:93-149 | The excluded walk counts exactly as many skipped matches as the subtree's text nodes hold. |
| Traversal.CountsPartition | double-negative-replacer.user.js:152-227 | For an element, replaced + skipped equals the number of matches below it. Every match is counted exactly once, on one path. |
| Traversal.CountsPartitionAll | double-negative-replacer.user.js:219-222 | The same for the children of a non-excluded element. |
| Traversal.ClearOnlyReplaces | double-negative-replacer.user.js:219-222 | Below an element where nothing is excluded, nothing is skipped, and every match is replaced. |
| Traversal.TilesWhenDisjoint | double-negative-replacer.user.js:182-201 | Sound, non-overlapping matches sorted by start tile the text: each one starts at or after the previous one's end. |
| Traversal.TextRoundTrips | double-negative-replacer.user.js:111-139 | Without overlapping matches, the excluded path keeps a text node's content exactly. The active path's tooltips restore it exactly. |
| Traversal.SkippedKeepsContent | double-negative-replacer.user.js:93-149 | Without overlapping matches, the excluded walk keeps a subtree's `textContent`. |
| Traversal.ExcludedSubtree | double-negative-replacer.user.js:223-225 | For an excluded element: nothing replaced, every match below it skipped, and its text kept when no matches overlap. |
| Traversal.Untouched | double-negative-replacer.user.js:179 | A subtree without matches comes back as it was, with both counts zero. |
| Traversal.SkippedUntouched | double-negative-replacer.user.js:111 | The same for the excluded walk. |
| Traversal.SiblingsUnchanged | double-negative-replacer.user.js:217-222 | Rewriting one child splices its pieces in at its position. Match-free siblings before and after it stay as they were, and the counts are that child's. |
| Rerun.OriginalRematches | double-negative-replacer.user.js:128 | The original text of a sound match holds a phrase again. |
| Rerun.SkippedRematches | double-negative-replacer.user.js:93-149 | After the excluded walk, the subtree still holds at least as many matches as before. It has gained at least one node per match. |
| Rerun.ExcludedRerunChanges | double-negative-replacer.user.js:335-342 | A second run over an excluded element that held a phrase skips at least as many matches again, and changes the element. |
| Replacer.Page.constructor | double-negative-replacer.user.js:44-45 | The counters start at zero. |
| Replacer.Page.RewriteTextNode | double-negative-replacer.user.js:159-217 | The text-node branch returns the pieces of `RewriteText`. It adds the number of matches to the counter of its path and leaves the other counter alone. |
| Replacer.Page.SpliceIn | double-negative-replacer.user.js:185-214 | The splice loop returns exactly `Spliced`, and adds one per match to the counter of its path. |
| Replacer.Page.CountOne | double-negative-replacer.user.js:202 | One span bumps exactly the counter of its path. |
| Replacer.Page.CountSkippedInNode | double-negative-replacer.user.js:93-149 | The walk's pieces and skipped count are those of `CountSkipped`, and the replacement counter is unchanged. |
| Replacer.Page.CountSkippedInChildren | double-negative-replacer.user.js:144-148 | The loop over the snapshot of children rebuilds them as `CountSkippedAll` says. |
| Replacer.Page.ReplaceInNode | double-negative-replacer.user.js:152-227 | The walk's pieces and both counter increments are those of `ReplaceIn`. |
| Replacer.Page.ReplaceInChildren | double-negative-replacer.user.js:219-222 | The loop over the snapshot of children rebuilds them as `ReplaceInAll` says. |
| Replacer.Page.ReplaceDoubleNegatives | double-negative-replacer.user.js:335-342 | Resets both counters. With no body, both counters end at zero and nothing changes. With a body, the body is replaced by its rewrite, which keeps its tag, class and attributes. The two counters then add up to the number of matches in the old body. |
| Examples.UncommonDiscovered | double-negative-replacer.user.js:162-182 | For "That is not uncommon." (any text made of "That is ", "not uncommon" and "."; `SentencePieces`), discovery over the whole table finds exactly one record: "not uncommon" at offsets 8 to 20, replaced by "common". The sort keeps it. |
| Examples.UncommonActive | double-negative-replacer.user.js:185-217 | Outside any exclusion that sentence becomes the text "That is ", the span for "not uncommon", and the text ".". |
| Examples.UncommonTooltip | double-negative-replacer.user.js:194-198 | That span shows "common", and its tooltip is `Original text: 'not uncommon'`. |
| Examples.UncommonSkipped | double-negative-replacer.user.js:117-139 | In excluded content the same sentence becomes "That is ", an underline span holding "not uncommon", and ".". |
| Examples.UncommonRoundTrips | double-negative-replacer.user.js:117-217 | Reading the tooltip in place of the active span gives the sentence back, and the excluded pieces read as the sentence itself. |
| Examples.InfrequentlyDiscovered | double-negative-replacer.user.js:162-182 | For "not infrequently", discovery over the whole table finds exactly two records, both at offset 0: "not infrequent" (table entry 4) and then "not infrequently" (entry 17). The stable sort keeps that order. |
| Examples.InfrequentlyTwice | double-negative-replacer.user.js:185-214 | The splice emits both spans and no text between them, so "not infrequently" reads "frequentfrequently". |

## Left out

- `showNotification` (lines 230-332): appends a notification `div` to `document.body` (line 318) and removes it about 5.3 s later (lines 326-331). It changes neither counter. A run started by the keyboard handler inside that window walks the `div` as well: its class is empty and its texts ("Double Negatives:", "• Replaced:", "• Skipped (due to exclusions):" and the two counts) hold no phrase, so `Traversal.Untouched` leaves it as it is and counts nothing. The model does not build the `div` itself.
- The timer that starts the first run and the Ctrl+Shift+D handler (lines 348-359). They only decide when `ReplaceDoubleNegatives` runs. `Rerun` covers what a repeated run does to excluded content only; a repeated run over content that was replaced is not modelled.
- The debug `console.log` calls (lines 205-208): output only.
- The DOM itself is modelled by value:
  - `createDocumentFragment`, `replaceChild` and the in-place update of `document.body` become functions that return the rebuilt subtree, with the class field `body` reassigned once.
  - Node identity, aliasing and other references into the document are not modelled.
  - The style strings are kept as attribute values, not interpreted as CSS.
- `toLowerCase` is modelled on ASCII letters only. This is exact for the tag names the classifier compares with and for the table's ASCII keys. Unicode case folding of other characters is not modelled.
- `RegExp` is modelled only for the patterns this table produces: plain literal strings matched case-insensitively (`Phrases.KeysAreLiterals`). A general regular-expression engine is not part of this model.
- Offsets count characters. JavaScript counts UTF-16 code units, which differ only for characters outside the Basic Multilingual Plane. These characters never occur in a key, and the pieces produced are the same.
- The counters are unbounded naturals. JavaScript numbers are exact far beyond any page's match count.
- Traversal.ReplaceIn: a text node with no parent element is outside the model. The script would fail on `null.tagName` there, and the walk only reaches text nodes through their parent element.
- Traversal.TextRoundTrips: stated only for texts whose matches do not overlap, because with overlapping matches the script duplicates text (`Examples.InfrequentlyTwice`).
- The re-check at line 155 is modelled but never fires during the walk. The walk reaches a text node only from a parent it has already found not excluded, and with the same ancestors the classifier gives the same answer.
