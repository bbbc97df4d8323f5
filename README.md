# CNY price annotator — a verified model

`Content.js` is a userscript that finds Chinese-yuan prices such as `¥1,299`
in the text of a web page. After each price it inserts a span with the amount
converted into the reader's currency (USD, EUR or TRY) at a rate fetched from
a public exchange-rate service. It also keeps those spans up to date when the
rate table is refreshed or the reader picks another currency.

This project models the core of that script in Dafny:

- **`price_scan.dfy`**: the pattern `¥\s?([\d,]+(?:\.\d+)?)` with the global
  flag. `exec` is called again and again from `lastIndex = 0`. A hand-written
  scanner is proved to be the regular expression (leftmost, greedy), and the
  list of matches is proved sound, ordered and complete.
- **`numbers.dfy`**: the numeric side.
  - The amount string of a match: commas deleted, white space trimmed, the
    first comma turned into a point.
  - `parseFloat`, `String(number)`, `toFixed(2)` and the fallback branch of
    `formatCurrency`.
  - Amounts and rates are exact non-negative decimals.
- **`rates.dfy`**: the JSON rate table, the rule `fetchRate` uses to accept a
  response, and how a rate is read from the cached table.
- **`dom.dfy`**: the page as a value tree of text nodes and elements, with
  nodes addressed by child-index paths from `body`.
  - `closest` is modelled as a check that includes the node itself and its
    ancestors.
  - The tree walker and `querySelectorAll` list paths in document order.
- **`annotate.dfy`**: `convertTextNode`. This covers:
  - the fragment of gap texts, price spans and conversion spans;
  - the one-sibling decimal lookahead ("stitching");
  - the replacement in the parent, and marking the parent as processed.
- **`walk.dfy`**: `walkAndConvert` over a snapshot of the text nodes, and the
  mutation observer's handling of one added node.
- **`sync.dfy`**: `updateAllConvertedSpans`, which re-renders every conversion
  span from the amount it recorded.
- **`engine.dfy`**: the page as an object. The fields are the document, the
  rate cache and the selected currency; the methods are the handlers, written
  as loops.
  - Each method is proved to leave the page exactly as the functions above
    describe.
  - The loop inside `convertTextNode` is proved to build the fragment
    `AnnotateFrom` describes.

Three behaviours of the code are kept as written:

- **Only one sibling is inspected per match.** The lookahead loop runs at most
  five rounds, but its last statement is an unconditional `break`
  (Content.js:147-181).
- **A `,50` continuation loses its separator.** Every comma is deleted before
  the first-comma-to-point replace can see it (Content.js:188-189). So `¥1,200`
  followed by `,50` converts 120050, while `.50` gives 1200.50
  (`Numbers.StitchedExamples`).
- **The processed marker is looked up with `closest`** (Content.js:228). So text
  in an element added later under an already processed container is not
  converted by the walk (`Walk.WalkUnderMarkIdentity`). A text node that is
  itself the added node is still converted, because the observer does not
  test the marker for text nodes (Content.js:448-449).
- **The walk marks the parent while it is still walking.** A conversion marks
  the parent at once (Content.js:217). So a later text node under the same
  parent is skipped by the `closest` test (Content.js:228), price or not. In
  `<p>¥5<br>¥6</p>` the walk annotates `¥5` and never `¥6`. "Settled" below
  therefore means that a text node's parent is in a processed container, not
  that its own price was annotated (`Walk.QuietBelowParent`).

## Model

| member | source | states |
|---|---|---|
| PriceScan.Exec | Content.js:118 | `exec` from `lastIndex` returns the match at the leftmost position at or after it where the pattern matches, and no match when there is none |
| PriceScan.MatchAtIsPattern | Content.js:118 | the scanner at a position returns a match of `¥\s?([\d,]+(?:\.\d+)?)` with the longest group, and returns nothing only when the pattern cannot match there at all |
| PriceScan.MatchedGroupIsAmount | Content.js:118 | a match found at a position starts there and its text fits the pattern |
| PriceScan.MatchedGroupLongest | Content.js:118 | no longer group at the same position would still fit the pattern (the greedy quantifiers take all they can) |
| PriceScan.ScanFrom | Content.js:129-134 | every match of the loop starts at or after the starting index, has its group after its start, and ends inside the text |
| PriceScan.ScanFromSound | Content.js:131-134 | each match the loop reports is the pattern's match at its own start |
| PriceScan.ScanFromOrdered | Content.js:131-134 | the reported matches come left to right and never overlap (each `exec` resumes at the previous `lastIndex`) |
| PriceScan.ScanFromComplete | Content.js:131-134 | no match is skipped: every position where the pattern matches starts or lies inside a reported match |
| PriceScan.NoYenNoMatch | Content.js:230 | a text without `¥` has no match, so the `indexOf('¥')` test loses no price |
| PriceScan.PieceWithoutStartsHasNoMatch | Content.js:136-137 | a gap of text with no match start in it contains no match when scanned on its own |
| Numbers.NatToStringValue | Content.js:201 | the decimal numeral printed for a whole number reads back as that number |
| Numbers.ParseDotted | Content.js:190 | `parseFloat` of `I.F` is the number `IF / 10^|F|` |
| Numbers.ParseWhole | Content.js:190 | `parseFloat` of a digit string is its value |
| Numbers.CanonSameValue | Content.js:201 | the shortest form of an amount denotes the same amount |
| Numbers.NumberToStringRoundTrip | Content.js:201 | `parseFloat(String(x))` is `x`: the amount stored in `data-cny-original` is the amount read back at Content.js:247 |
| Numbers.PointStringReads | Content.js:201 | a numeral with a point and `k` decimals reads back as `u / 10^k` |
| Numbers.CentsRounding | Content.js:78 | `toFixed(2)` shows the amount rounded to the nearest hundredth, ties going up |
| Numbers.ToFixed2Shape | Content.js:78 | `toFixed(2)` ends with a point and exactly two digits |
| Numbers.ToFixed2ReadsBack | Content.js:78 | `toFixed(2)` reads back as the rounded number of cents |
| Numbers.CentsOfCanon | Content.js:251 | the converted cents depend on the amount, not on how it is written, so re-rendering from the stored string matches the first rendering |
| Numbers.FormatExample | Content.js:73-80 | 1000 × 0.14 in USD is shown as `$140.00` |
| Numbers.TrimStart | Content.js:188 | removing leading white space removes exactly a white-space prefix and leaves a text that starts with no white space |
| Numbers.RemoveCommasOfAmountChars | Content.js:188 | deleting the commas of a `[\d,]` run leaves digits, and nothing at all exactly when the run is all commas |
| Numbers.RemoveCommasHasNoComma | Content.js:188-189 | after deleting every comma the first-comma replace has nothing left to change |
| Numbers.ParseStitched | Content.js:188-190 | a group alone parses to its digits; with a `.` continuation it parses to digits and decimals; with a `,` continuation the digits run together into a whole number; a group of commas is `NaN` |
| Numbers.StitchedExamples | Content.js:188-190 | `1,200` with `.50` is 1200.50, with `,50` it is 120050 |
| Rates.AcceptedRates | Content.js:62 | a response is accepted exactly when it is an object whose `rates` is an object or an array, and then that member is what is kept |
| Rates.NextCache | Content.js:58-71 | an accepted response replaces the cache; a failed or rejected one leaves it as it was |
| Rates.RateAfterFetch | Content.js:58-71 | after a failed or rejected fetch the rate for a currency is what it was; after an accepted one it is exactly the number the body's object table holds under the code, and an array table gives none |
| Rates.RateAfterFetches | Content.js:460-467 | after a run of fetches the rate is the one the last accepted body gives, or the one cached before when none was accepted |
| Rates.CacheStaysSet | Content.js:62-66 | once a table is cached, no later fetch removes it |
| Rates.AfterFetchesLastAccepted | Content.js:460-467 | after a series of periodic fetches the cache is the table of the last accepted response, or the old cache when none was accepted |
| Rates.AfterFetchesNoneAccepted | Content.js:460-467 | fetches none of which is accepted leave the cache as it was |
| Rates.AfterFetchesAccepted | Content.js:460-467 | after an accepted fetch followed only by rejected or failed ones, the cache holds the accepted table |
| Rates.AcceptExample | Content.js:62-64 | the body `{"rates": {"USD": 0.14}}` yields a USD rate of 0.14 |
| Dom.AlongExtend | Content.js:228 | what `closest` finds above a node it also finds above every node below it |
| Dom.AlongAt | Content.js:237 | a marked element answers `closest('[data-cny-processed]')` for itself |
| Dom.AlongPut | Content.js:215 | `closest` asked at a path not through the replaced node answers as before |
| Dom.SelectSound | Content.js:222-226 | every listed path leads to a node of the wanted kind |
| Dom.SelectComplete | Content.js:222-226 | every node of the wanted kind is listed |
| Dom.PutAt | Content.js:215 | after a replacement the new node is found where it was put |
| Dom.PutElsewhere | Content.js:215 | a replacement changes no node off its own path |
| Dom.PutKeepsMarks | Content.js:215-217 | putting a processed element anywhere removes no marker: a path that ran through a processed container, outside conversion spans or not, still does |
| Annotate.LeadingDecimalFound | Content.js:149 | a continuation is found only when white space, then `.` or `,`, then a digit open the sibling's text |
| Annotate.LeadingDecimalNotFound | Content.js:149 | when none is found, no such opening exists |
| Annotate.LeadingDecimalParts | Content.js:149-165 | the continuation takes every following digit, and white space, continuation and remainder make up the whole text |
| Annotate.StitchSpec | Content.js:145-181 | stitching takes a continuation exactly when the next sibling's text opens with one; only that sibling changes, and it becomes a text node with the remainder or disappears |
| Annotate.StitchFor | Content.js:145 | a continuation is taken only for a group without a `.`, and then it is a separator followed by digits; otherwise the siblings are untouched |
| Annotate.StitchForSpec | Content.js:144-149 | a continuation is taken for a match exactly when its group has no `.` and the next sibling's text opens with white space, `.` or `,` and a digit; a group without `.` takes what the lookahead offers |
| Annotate.ConvSpanNode | Content.js:194-202 | a conversion span carries the marker attribute, the amount as `String(cnyVal)` and the currency |
| Annotate.ConvFor | Content.js:187-204 | at most one conversion span is made per match |
| Annotate.PriceSpanText | Content.js:140-152 | a price span reads as the matched text followed by the taken continuation |
| Annotate.AnnotateKeepsText | Content.js:136-213 | once the conversion spans are left out, the fragment reads as the original text with each taken continuation right after its price; there is one continuation, possibly empty, per match |
| Annotate.InsertNoDecimals | Content.js:136-213 | with no continuation taken, the fragment's text is the original text exactly |
| Annotate.AnnotateDecimals | Content.js:145-152 | each continuation belongs to its match, and is only taken for a group without a `.` |
| Annotate.AnnotateSiblings | Content.js:146-181 | the lookahead replaces or removes at most one sibling per match, from the first on, and leaves the siblings after those untouched |
| Annotate.AnnotateConversions | Content.js:187-204 | the fragment holds exactly one conversion span per match, in match order, for the match's group and continuation, when a rate is cached and the amount parses |
| Annotate.NoRateNoConversions | Content.js:187 | without a rate for the current currency no conversion span is made |
| Annotate.CommaGroupNoConversion | Content.js:188-191 | a group made only of commas gets a price span but never a conversion |
| Annotate.AnnotateQuiet | Content.js:136-137 | the fragment's text nodes are the gaps and the tail; none is empty and none holds a price |
| Annotate.ConvSpanRecordsAmount | Content.js:201 | the amount a conversion span records is not empty and reads back as the amount converted |
| Annotate.ParentNode | Content.js:122 | the parent of a text node is an element that holds the node at its index |
| Annotate.ConvertAt | Content.js:120-123 | a node without a parent, with empty text, inside `script`/`style`/`noscript` or without a price is left alone |
| Annotate.ConvertAtParent | Content.js:210-217 | after a conversion the parent keeps its tag, gets the processed marker, keeps the children before the text node, and then holds the fragment followed by the remaining siblings |
| Annotate.ConvertAtMarked | Content.js:217 | after a conversion the parent is inside a processed container |
| Annotate.ConvertAtChild | Content.js:215 | the fragment's nodes stand in the parent from the text node's old index on |
| Annotate.ConvertAtFrame | Content.js:215 | a conversion leaves alone every node that is not the parent, below it or above it |
| Annotate.ConvertAtAbove | Content.js:215 | the parent's ancestors keep their tags and attributes |
| Annotate.ConvertAtAlong | Content.js:215 | `closest` asked anywhere off the parent's subtree answers as before |
| Annotate.ConvertAtKeepsMarks | Content.js:215-217 | a conversion clears no processed marker on any path |
| Walk.Snapshot | Content.js:222-226 | the walker lists only nodes strictly below the root |
| Walk.SnapshotHas | Content.js:222-226 | every text node strictly below the root is in the walker's list |
| Walk.WalkSettles | Content.js:221-234 | after the walk every text node below the root has its parent inside a processed container (which does not mean its own price was annotated), or is inside `script`/`style`/`noscript`, or holds no price |
| Walk.QuietBelowParent | Content.js:217-228 | after a conversion every text node below the parent is quiet: the marked parent makes the walk skip the parent's later text nodes, priced or not |
| Walk.SettledWalkIdentity | Content.js:228-232 | a walk over a subtree where every text node is settled changes nothing |
| Walk.WalkIdempotent | Content.js:221-234 | walking the same root twice does no more than walking it once |
| Walk.WalkUnderMarkIdentity | Content.js:228 | a walk rooted inside a processed container, or inside `script`/`style`/`noscript`, changes nothing |
| Walk.MarkShieldsWalk | Content.js:236-238 | after `markProcessed` on an element, a walk at or under it changes nothing |
| Walk.WalkFrame | Content.js:221-234 | a walk changes no node that is neither the root, below it nor above it |
| Walk.WalkKeepsMarks | Content.js:221-238 | a walk clears no processed marker on any path |
| Walk.OnAddedKeepsMarks | Content.js:445-458 | handling an added node clears no processed marker on any path |
| Walk.FragmentAddedIdentity | Content.js:445-458 | the annotator's own fragment, reported back to the observer as added nodes, causes no further change |
| Sync.RecordedAmount | Content.js:245-247 | an amount is read only from a present, non-empty `data-cny-original` |
| Sync.SyncSpan | Content.js:251-253 | a re-rendered span keeps its tag and attributes, records the current currency, and shows only the converted label |
| Sync.SyncStepsTree | Content.js:242-255 | the loop over the spans listed below a node does what the tree description `SyncTree` does to that node |
| Sync.SyncDocTree | Content.js:240-256 | `updateAllConvertedSpans` rewrites exactly the conversion spans whose amount parses, when a rate is available, and nothing else |
| Sync.SyncNoRateIdentity | Content.js:241-250 | without a cached table or a rate for the currency the page is unchanged, so stale spans are left, not cleared |
| Sync.SyncSpanStable | Content.js:251-253 | re-rendering a re-rendered span gives the same span |
| Sync.SyncTreeIdempotent | Content.js:240-256 | re-syncing twice does no more than re-syncing once |
| Sync.SyncIdempotent | Content.js:240-256 | `updateAllConvertedSpans` run twice gives the same page as run once |
| Sync.SyncRendersAll | Content.js:249-253 | afterwards every conversion span with a readable amount shows that amount converted at the current rate, in the current currency |
| Sync.SyncSpanOfConvSpan | Content.js:199-202 | re-rendering a span the annotator made gives exactly the span the annotator would now make for the same amount at the current rate |
| Sync.SyncTreeKeepsMarks | Content.js:240-256 | re-rendering keeps every marker met before a conversion span is entered |
| Sync.SyncKeepsMarks | Content.js:240-256 | `updateAllConvertedSpans` clears no marker met outside conversion spans, so `closest` still finds it |
| Engine.BuildFragment | Content.js:126-213 | the `exec` loop reports whether any price matched and builds exactly the fragment, remaining siblings and continuations that `AnnotateFrom` describes |
| Engine.Page.constructor | Content.js:13-14 | a page starts with no rate table and US dollars selected |
| Engine.Page.MarkProcessed | Content.js:236-238 | an element gets the processed marker and then answers the processed test; any other node is left alone |
| Engine.Page.ConvertTextNode | Content.js:120-219 | the handler leaves the page as `ConvertAt` describes |
| Engine.Page.ReplaceTextNode | Content.js:124-218 | for a text node that passed the guards, the parent's children are replaced and the parent marked exactly as `ConvertAt` describes |
| Engine.Page.WalkAndConvert | Content.js:221-234 | the loop over the snapshot leaves the page as `Walk.WalkAndConvert` describes; no processed marker met outside conversion spans is cleared (`MarksKept`) |
| Engine.Page.UpdateAllConvertedSpans | Content.js:240-256 | the loop over the listed spans leaves the page as `SyncDoc` describes; no processed marker met outside conversion spans is cleared (`MarksKept`) |
| Engine.Page.UpdateSpan | Content.js:244-254 | one turn of the loop: the listed span is rewritten as `SyncVisit` describes, and nothing else changes |
| Engine.Page.FetchRate | Content.js:58-71 | the cache becomes `NextCache`, and the call succeeds exactly when the response is accepted |
| Engine.Page.SelectCurrency | Content.js:367-375 | the selected currency is recorded, and every span with a readable amount then shows it in that currency when a rate is cached for it; no processed marker met outside conversion spans is cleared (`MarksKept`) |
| Engine.Page.OnAddedNode | Content.js:445-458 | an added text node with `¥` is converted, an added element is walked, anything else is ignored; no processed marker met outside conversion spans is cleared (`MarksKept`) |
| Engine.Page.RefreshTick | Content.js:460-467 | a tick fetches, and re-renders only when the fetch succeeded; no processed marker met outside conversion spans is cleared (`MarksKept`) |
| Engine.Page.Init | Content.js:431-443 | a stored non-empty currency is taken, the first fetch is applied, the body is walked, and the spans are re-rendered when a table is cached; without a table every text node of the body ends settled; no processed marker met outside conversion spans is cleared (`MarksKept`) |

## Left out

- `httpGetJson` (Content.js:16-56) is network I/O. Its result is a parameter: a parsed body or a failure. A body that does not parse as JSON counts as a failure.
- Loading and saving the currency preference (Content.js:83-116) is storage I/O. `Init` takes the stored value as a parameter, and the save is not modelled.
- The settings panel (Content.js:258-429) is not modelled. Only what choosing a currency does to the page is (Content.js:367-375).
- The `MutationObserver` and `setInterval` plumbing and their asynchrony are not modelled (Content.js:445-467). What is modelled:
  - one added node at a time;
  - one timer tick at a time;
  - one whole run of `init` with the fetch's outcome given.
- Batches of mutation records and interleavings of handlers are not modelled.
- The observer also reports the text node that replaces a stitched element sibling. It can be converted again, because the observer does not test the processed marker for text nodes. `Walk.FragmentAddedIdentity` covers only the fragment's own nodes.
- Numbers.FormatCurrency: models only the fallback branch: `$`, `€` or the code and a space, then `toFixed(2)`. The `toLocaleString` branch (Content.js:75) depends on the browser's locale data.
- Amounts are exact decimals, not binary floating point. So the model leaves out:
  - rounding of `cnyVal * rate`;
  - exponent notation in `String(number)`, and in `toFixed(2)` for amounts of 1e21 and above (`Numbers.ToFixed2` always prints plain digits);
  - `parseFloat` of signs, exponents and `Infinity`.
- Rates.RateOf: gives no rate from an array table. `fetchRate` accepts an array table, and JavaScript would then read a number for an index such as `"0"` or for `length`; the model reads rates only by currency code from an object table.
- The conversion span's inline style (Content.js:195-198) is left out.
- Nodes are values at paths, not identities. Comment nodes and other node kinds, and elements above `body`, are not modelled.
- Work the source does on nodes already detached from the page is not modelled, because the page never shows it.
- The `try`/`catch` around the sibling update (Content.js:154-178) and the one around `markProcessed` (Content.js:217) are not modelled. A sibling always has a parent here, so neither can throw.
- Engine.Page.Init: says nothing about settledness after the re-render. A re-rendered label shows the currency code, and a code that contains `¥` would be a new price.
- Sync.SyncKeepsMarks: promises only the markers met before a conversion span is entered. Re-rendering replaces a span's children (`textContent`, Content.js:253), so a processed element inside a conversion span is removed with them; no marker is ever cleared from an element that stays.
