# vector-autofill, modelled in Dafny

vector-autofill is a browser extension that fills web forms from the user's saved key/value data. A content script
finds the fillable fields of a page and describes each one. A background coordinator asks a remote matcher
which stored key fits each description. The content script then writes the stored values into the fields.
A popup edits the saved data.

This project models the extension's page-side logic and the pure glue around it:

- `dom.dfy` (module `Dom`): the document as an immutable tree of elements, each with a tag, an attribute map,
  its own text and an ordered list of children. An element is a path of child indices from the document
  element, and document order is pre-order. Also here: `textContent`, `querySelectorAll` and `querySelector`
  as pre-order filters, `getElementById`, `document.body`, `closest` and `previousElementSibling`.
- `text.dfy` (module `Text`): the JavaScript string operations the extension relies on: `trim`,
  `split(/\s+/)`, `join`, case mapping, `includes`, replacing the first occurrence of a string, the name-rule
  character class, and `String(n)`.
- `types.dfy` (module `Types`): the message and record types of the extension. It also holds the user's data:
  a JavaScript object of own string properties in insertion order, with `Object.keys`, `d[k]` and `d[k] = v`.
- `selector.dfy` (module `Selectors`): `buildSelector`, and re-locating an element by its selector.
- `detector.dfy` (module `Detector`): the candidate filter, the nine-step description cascade and
  `detectFormFields`.
- `filler.dfy` (module `Filler`): option choice in `fillSelect`, the write-then-events of `setNativeValue`,
  and the best-effort loop `applyMatchesWithSelectors`. Filling never changes the tree. `Filler.Page` holds the
  live state of every element: its current value and the events dispatched at it.
- `content.dfy` (module `Content`): the content script as a class. It holds the last detection result and
  the debounce timer. Its parts are scans, the two halves of `triggerAutofill` around the awaited match
  response, the message switch, and the mutation observer's timer.
- `worker.dfy` (module `Worker`): the coordinator's `handleMatchRequest`, the badge text, and the listener's
  fallbacks for a failed match request or health check.
- `popup.dfy` (module `Popup`): the editor's rows, `renderFields`, `collectFields`, adding and removing rows,
  and the online/offline status text.

A few modelling choices:

- The remote matcher and the health check are function parameters. A `None` result stands for a rejected
  promise.
- Storage is a given value of type `Types.UserData`.
- A selector is a value: either `#id` or a list of `tag:nth-child(k)` steps. How it is rendered as a string
  and escaped does not matter to anything proved here.
- Writing a non-empty value into a file input throws in the DOM, and `setNativeValue` does not catch it.
  The model therefore lets one write throw. The apply loop then stops, and its `completed` result says so.
- The mutation observer's timer is modelled only as "cancel the pending timer and start one new one".
  The 500 ms delay is kept as data (`Content.DebounceMillis`).
- The await in `triggerAutofill` splits it into `BeginAutofill` and `FinishAutofill`. Any other operation,
  such as a rescan triggered by a timer, may run between the two.
- The description cascade's comment implies a description is never empty. The code can give an empty one: a
  `name` made only of `_`, `-`, `[` and `]` passes the name rule's test and is then emptied by the
  replacement. The model follows the code (`Detector.SeparatorNameGivesEmpty`).

## Model

| member | source | states |
|---|---|---|
| Dom.InputType | extension/src/content/detector.ts:81 | an input's `type` is the lower-cased `type` attribute when that is one of the HTML standard's type keywords, and `"text"` otherwise; so it is always a keyword, never empty and never padded |
| Dom.QueryAll | extension/src/content/detector.ts:89 | `querySelectorAll` lists exactly the elements satisfying the selector, in document order |
| Dom.QueryFirst | extension/src/content/detector.ts:38 | `querySelector` gives the first satisfying element in document order, and nothing exactly when none satisfies it |
| Dom.GetElementById | extension/src/content/detector.ts:58 | `getElementById` gives the first element in document order with that id; the empty id finds nothing |
| Dom.Body | extension/src/content/detector.ts:13 | `document.body`, when present, is a child of the document element |
| Dom.Closest | extension/src/content/detector.ts:43 | `closest("label")` gives the element itself or one of its ancestors, and that element is a `label` |
| Dom.ClosestNearest | extension/src/content/detector.ts:43 | no element from the element itself up to, but not including, the result of `closest` is a `label`; with no result, neither the element nor any of its ancestors is a `label` |
| Dom.PreviousSibling | extension/src/content/detector.ts:77 | the previous element sibling is the child just before, under the same parent; the first child has none |
| Text.Trim | extension/src/popup/popup.ts:70 | `trim` is empty exactly for an all-whitespace string, its result has whitespace at neither end, and it never grows |
| Text.TrimSlice | extension/src/popup/popup.ts:70 | `trim` removes only whitespace, and only at the two ends: the result is a contiguous piece of the argument, with nothing but whitespace before and after it |
| Text.TrimTrimmed | extension/src/popup/popup.ts:70 | trimming a string with no whitespace at either end leaves it unchanged |
| Text.Words | extension/src/content/detector.ts:56-57 | the pieces of `split(/\s+/)` that are kept are non-empty and contain no whitespace |
| Text.WordsBlank | extension/src/content/detector.ts:56-57 | a string of whitespace only gives no ids at all |
| Text.WordsCons | extension/src/content/detector.ts:56-57 | leading whitespace is skipped and the maximal non-whitespace run after it is the first id, followed by the ids of the rest: the ids are exactly the runs, in order |
| Text.JoinTrimmed | extension/src/content/detector.ts:60 | joining non-empty trimmed texts gives a non-empty trimmed text |
| Text.Lower | extension/src/content/detector.ts:81 | `toLowerCase` maps each character to its lower-case form and keeps the length |
| Text.RemoveFirstCuts | extension/src/content/detector.ts:45 | `replace(own, "")` cuts out exactly the first occurrence of `own` |
| Text.CutsFirstOccurrence | extension/src/content/detector.ts:45 | when the text occurs at all, there is a first occurrence, and `replace` cuts exactly that one |
| Text.RemoveFirstAbsent | extension/src/content/detector.ts:45 | when the text does not occur, `replace` changes nothing |
| Text.ReplaceSeparators | extension/src/content/detector.ts:70 | `replace(/[_\-[\]]/g, " ")` turns each `_`, `-`, `[` and `]` into a space, leaves every other character alone and keeps the length |
| Text.DecimalRoundTrip | extension/src/background/service-worker.ts:26 | reading back the digits of `String(n)` gives `n` |
| Types.Keys | extension/src/background/service-worker.ts:48 | `Object.keys` lists every entry's key, in entry order |
| Types.Lookup | extension/src/background/service-worker.ts:62 | `d[k]` is the value of an entry with key `k`, and is undefined exactly when no entry has that key |
| Types.Put | extension/src/popup/popup.ts:73 | after `d[k] = v`: `k` maps to `v` and every other key keeps its value; the keys stay distinct; an existing key keeps its place, and a new key is appended |
| Types.PutEntries | extension/src/popup/popup.ts:73 | every entry after `d[k] = v` is the new entry or the entry that was at the same place |
| Selectors.Steps | extension/src/content/detector.ts:11-19 | the walk leaves one step per level below the stopping point; the j-th step, counted top-down, gives the tag and the 1-based child position of the ancestor at that depth |
| Selectors.Anchor | extension/src/content/detector.ts:13-15 | the walk stops at an ancestor of the element, or at the element itself |
| Selectors.BuildSelector | extension/src/content/detector.ts:8-21 | an element with an id gets `#id`, and only such an element does; otherwise the selector has one step per level between the element and `body`, or the document element when it is outside `body` |
| Selectors.QuerySelector | extension/src/content/filler.ts:62 | resolving a selector gives the first element in document order that matches it, and nothing exactly when no element matches |
| Selectors.StepsMatch | extension/src/content/detector.ts:11-20 | an element matches the positional selector of the steps from any of its ancestors down to it |
| Selectors.OwnSelectorMatches | extension/src/content/detector.ts:8-21 | every element matches the selector built for it |
| Selectors.ResolvesAtOrBefore | extension/src/content/detector.ts:8-21 | on an unchanged page, resolving a non-empty built selector always finds an element: the original one, or one before it in document order |
| Selectors.IdSelectorRoundTrip | extension/src/content/detector.ts:9 | the `#id` selector finds exactly the original element if and only if no earlier element has the same id |
| Selectors.UniqueIdRoundTrip | extension/src/content/detector.ts:9 | when ids are unique in the page, the `#id` selector finds exactly the original element |
| Selectors.TwoBlocksSelector | extension/src/content/detector.ts:11-20 | on the example page, the second input's selector is `div:nth-child(2) > input:nth-child(1)` |
| Selectors.TwoBlocksFirstInputMatches | extension/src/content/detector.ts:11-20 | on the example page, the first input also matches that selector |
| Selectors.PositionalSelectorFindsOtherElement | extension/src/content/detector.ts:11-20 | a page on which the second input's positional selector resolves to another element |
| Selectors.ResolveFrom | extension/src/content/detector.ts:11-20 | descending from the stopping point along the steps ends, if anywhere, at an element whose ancestors at each level fit the steps |
| Selectors.AnchoredRoundTrip | extension/src/content/detector.ts:11-20 | descending along the built steps, from any ancestor on the walk, ends at exactly the original element |
| Selectors.BuiltSelectorResolvesAnchored | extension/src/content/detector.ts:11-20 | a positional selector resolved from the point where `buildSelector`'s walk stopped finds exactly the original element |
| Detector.Candidates | extension/src/content/detector.ts:3 | an element is a candidate exactly when it is an input whose `type` is not hidden, submit, button, reset or image, or a select, or a textarea; the candidates are listed in document order |
| Detector.CandidatesInDocumentOrder | extension/src/content/detector.ts:89 | no candidate is listed twice, and list order coincides with document order |
| Detector.Nonblank | extension/src/content/detector.ts:51 | a rule's test-and-return gives the trimmed text exactly when the text is not all whitespace; that result is non-empty |
| Detector.LabelForRule | extension/src/content/detector.ts:37-40 | rule 1 gives nothing for an element without an id or with no `label for` it; otherwise it gives the trimmed text of the first such label in document order, when that text is not blank |
| Detector.WrappingLabelRule | extension/src/content/detector.ts:43-47 | rule 2 gives nothing without a `label` ancestor; what it gives is non-empty and trimmed |
| Detector.WrappingLabelCutsFirstOccurrence | extension/src/content/detector.ts:43-46 | the element's own text always occurs in the wrapping label's text; rule 2 gives the label's text with that first occurrence cut out, trimmed, or falls through when that is blank |
| Detector.AriaLabelRule | extension/src/content/detector.ts:50-51 | rule 3 gives the trimmed `aria-label` exactly when it is not blank |
| Detector.ReferencedText | extension/src/content/detector.ts:58-59 | an `aria-labelledby` id contributes its element's trimmed text, or nothing when the element is missing or its text is blank |
| Detector.ReferencedTexts | extension/src/content/detector.ts:56-59 | the referenced texts are at most one per id, each non-empty and trimmed |
| Detector.ReferencedTextsAppend | extension/src/content/detector.ts:56-59 | the ids are resolved in list order: the texts of a concatenated list are the texts of its parts, concatenated |
| Detector.AriaLabelledByRule | extension/src/content/detector.ts:54-61 | rule 4 gives a value exactly when some referenced text survives; the value is the surviving texts joined with single spaces, and it is non-empty and trimmed |
| Detector.PlaceholderRule | extension/src/content/detector.ts:64-66 | rule 5 is consulted only for inputs and textareas: for those it gives the trimmed placeholder when that is not blank, and for a select it gives nothing |
| Detector.NameRule | extension/src/content/detector.ts:69-70 | rule 6 gives a value exactly when `name` is not blank; the value is the name with every `_`, `-`, `[` and `]` turned into a space, then trimmed, so it holds none of them |
| Detector.TitleRule | extension/src/content/detector.ts:73-74 | rule 7 gives the trimmed `title` exactly when it is not blank |
| Detector.PreviousSiblingRule | extension/src/content/detector.ts:77-78 | rule 8 gives nothing for an element without a previous element sibling; otherwise it gives that sibling's trimmed text content exactly when the text is not blank |
| Detector.Fallback | extension/src/content/detector.ts:81-82 | the fallback of an input is its own `type` (a keyword); for any other element it is the lower-case tag name |
| Detector.DescribeFromCases | extension/src/content/detector.ts:35-83 | from any point of the rule order on, the cascade stops at the first rule that gives a value and returns that value; when no rule does, it returns the fallback |
| Detector.FirstRuleWins | extension/src/content/detector.ts:35-83 | when rule i is the first in order to give a value, the description is that value, whatever the later rules give |
| Detector.NoRuleFallback | extension/src/content/detector.ts:80-82 | when none of the eight rules gives a value, the description is the fallback |
| Detector.FallbackWord | extension/src/content/detector.ts:81-82 | a candidate's fallback is a non-empty trimmed word |
| Detector.DescriptionShape | extension/src/content/detector.ts:35-83 | a candidate's description is trimmed; it is empty only when the first five rules fall through and the name rule gives the empty string |
| Detector.SeparatorNameRule | extension/src/content/detector.ts:69-70 | a name made only of `_`, `-`, `[` and `]` passes the name rule's test and gives the empty string |
| Detector.SeparatorNameGivesEmpty | extension/src/content/detector.ts:35-83 | such a name, reached by the cascade, makes the description the empty string |
| Detector.FieldFor | extension/src/content/detector.ts:94-100 | a candidate's record carries the given index, the element's description, the selector built for it and its upper-case tag name; it has an input type exactly for an input, and then it is the input's `type` |
| Detector.DetectedFields | extension/src/content/detector.ts:88-104 | a scan gives one record per candidate |
| Detector.DetectedFieldAt | extension/src/content/detector.ts:88-104 | record i of a scan describes candidate i in document order and has index i |
| Detector.DescribeCandidate | extension/src/content/detector.ts:93-100 | the loop body builds record `index` of the scan, so the list built so far grows by exactly that record |
| Detector.DetectFormFields | extension/src/content/detector.ts:88-104 | `detectFormFields` returns the scan's list: one record per candidate, in document order, with indices 0 to n-1 |
| Filler.OptionOf | extension/src/content/filler.ts:28 | an option's `text` is its text content with whitespace stripped and collapsed; its `value` is the `value` attribute, or the text when that attribute is absent |
| Filler.Options | extension/src/content/filler.ts:28 | `Array.from(el.options)` has one value/text entry per option element of the select, in the same order; `Filler.OptionNodesOne` and `Filler.OptionNodesAppend` say which elements those are and that they are in tree order |
| Filler.OptionChildren | extension/src/content/filler.ts:28 | a group's options are exactly its `option` children |
| Filler.OptionChildrenOne | extension/src/content/filler.ts:28 | a lone child is one option of the group when it is an `option`, and none otherwise |
| Filler.OptionChildrenAppend | extension/src/content/filler.ts:28 | the group's options follow the children's order, each `option` child once: the options of consecutive children are the first part's, then the second's |
| Filler.OptionNodesOne | extension/src/content/filler.ts:28 | a lone child of the select gives itself as an option when it is an `option`, the `option` children of an `optgroup`, and nothing otherwise |
| Filler.OptionNodesAppend | extension/src/content/filler.ts:28 | the select's options are in tree order: the options of consecutive children are the first part's, then the second's |
| Filler.FindOption | extension/src/content/filler.ts:31-42 | `find` gives the first option satisfying the test, and nothing exactly when none does |
| Filler.ChooseOption | extension/src/content/filler.ts:31-44 | when some option matches exactly (value or text, in lower case), the first such option is chosen; otherwise the choice is the first partial match |
| Filler.ExactIsPartial | extension/src/content/filler.ts:31-42 | an exact match is also a partial match |
| Filler.ChosenIffPartial | extension/src/content/filler.ts:36-45 | some option is chosen exactly when some option matches partially |
| Filler.EmptyOptionMatches | extension/src/content/filler.ts:36-42 | an option with an empty value or text matches every value partially |
| Filler.EmptyValueChoosesOption | extension/src/content/filler.ts:36-42 | the empty value chooses an option exactly when the select has one |
| Filler.ExactBeatsEarlierPartial | extension/src/content/filler.ts:31-44 | a later exact match wins over an earlier partial one: with options `ca`/California and `c`/Cee, the value `C` chooses the second |
| Filler.Target | extension/src/content/filler.ts:59-63 | a match has an element exactly when its field has a non-empty selector in the map and that selector finds an element |
| Filler.WriteOf | extension/src/content/filler.ts:65-69 | a match writes into an element only when that element is its target |
| Filler.FillOneEffect | extension/src/content/filler.ts:59-69 | one iteration throws exactly when its element is a file input and its value is not empty; otherwise it changes only its target element, and that element's value becomes what the match writes |
| Filler.Applied | extension/src/content/filler.ts:58-70 | the loop keeps a live state for every element of the page |
| Filler.AppliedCompletes | extension/src/content/filler.ts:58-70 | the loop runs to the end exactly when no match throws |
| Filler.AppliedConcat | extension/src/content/filler.ts:58-70 | running two match lists one after the other is running their concatenation, unless the first stops |
| Filler.SkippedMatch | extension/src/content/filler.ts:59-63 | a match without a selector, with an empty one, or whose selector finds nothing is skipped as if it were absent; a skip never aborts later matches |
| Filler.AppliedFrame | extension/src/content/filler.ts:58-70 | an element that no match resolves to keeps its value and its events |
| Filler.AppliedValue | extension/src/content/filler.ts:58-70 | after a run to the end, each element holds the value of the last match that writes it, or its old value |
| Filler.LastWriteIs | extension/src/content/filler.ts:58-70 | the last write into an element is the write of the last match that writes it |
| Filler.LastWriteNone | extension/src/content/filler.ts:58-70 | when no match writes an element, there is no last write into it |
| Filler.LastMatchWins | extension/src/content/filler.ts:58-70 | when several matches resolve to one element, the later one in list order decides its final value |
| Filler.ApplyTwice | extension/src/content/filler.ts:54-71 | applying the same list again to an unchanged page runs to the end and leaves every element's value as the first run left it |
| Filler.Page.SetNativeValue | extension/src/content/filler.ts:7-21 | the value becomes `value`, then an `input` event and a `change` event are dispatched, in that order, and nothing else changes; for a file input with a non-empty value the setter throws and nothing changes |
| Filler.Page.FillSelect | extension/src/content/filler.ts:26-49 | with a chosen option, the select's value becomes that option's value and exactly one `change` event follows; with none, nothing changes and no event is dispatched |
| Filler.Page.ApplyOne | extension/src/content/filler.ts:59-69 | one iteration of the loop does to the page what one step of the loop's definition says, and changes nothing when it throws |
| Filler.Page.ApplyMatchesWithSelectors | extension/src/content/filler.ts:54-71 | the loop leaves the page in the state the match-by-match definition gives, and reports whether it ran to the end; the tree is unchanged |
| Content.SelectorMap | extension/src/content/content.ts:39-42 | every held field's index is in the map, and each entry is the selector of a field with that index |
| Content.SelectorMapLast | extension/src/content/content.ts:39-42 | with repeated indices, the later field's selector is the one kept |
| Content.IndexedSelectorMap | extension/src/content/content.ts:39-42 | for a scan result, the map's keys are exactly the positions 0 to n-1, each sent to its field's selector |
| Content.StaleScanRedirects | extension/src/content/content.ts:31-44 | the map comes from the list held when the response arrives: a match for field k is written to whatever element field k of the current list resolves to in the current page (none when its selector is empty or finds nothing), whichever element the match was computed for; an index past the current list reaches no element |
| Content.StaleScanWritesOtherElement | extension/src/content/content.ts:14-44 | a concrete rescan during the await, with both lists computed by the detector: the request was sent with the scan of `<form><input id=email></form>`, whose field 0 is `#email`; a phone input is then inserted before it and the rescan's field 0 is `#phone`; the match computed for the email input completes, is written into the phone input, and the email input keeps its state |
| Content.SentScan | extension/src/content/detector.ts:88-104 | the scan of the form before the insertion has one field, with index 0 and selector `#email`, which resolves to the email input in the mutated form |
| Content.Rescan | extension/src/content/detector.ts:88-104 | the scan of the mutated form has two fields, and field 0 is the phone input with selector `#phone`, which is also what the selector map sends 0 to |
| Content.TwoCandidates | extension/src/content/detector.ts:89 | on a form whose two children are fillable inputs, the candidate list is exactly the first child, then the second |
| Content.ContentScript.constructor | extension/src/content/content.ts:69 | loading the script scans the page once and reports the count when it is not zero; no timer is pending |
| Content.ContentScript.ScanPage | extension/src/content/content.ts:14-22 | a scan replaces the held list with the fresh detection result; it sends `FIELDS_DETECTED` with the list's length only when the list is not empty |
| Content.ContentScript.BeginAutofill | extension/src/content/content.ts:25-34 | it rescans only when the held list is empty; it sends the match request, carrying the held list, exactly when the list is then not empty |
| Content.ContentScript.BuildSelectorMap | extension/src/content/content.ts:39-42 | the loop builds the index-to-selector map of the held list |
| Content.ContentScript.FinishAutofill | extension/src/content/content.ts:36-44 | a missing or empty response changes nothing; otherwise the matches are applied through the map of the list held now |
| Content.ContentScript.OnMessage | extension/src/content/content.ts:49-66 | `GET_FIELDS` scans and replies with exactly the new list; `TRIGGER_AUTOFILL` starts an autofill and sends no reply: it sends the request with the held list, or rescans first when nothing is held and then sends the count and the request only when the new list has fields; every other message changes nothing |
| Content.ContentScript.OnMutation | extension/src/content/content.ts:74-77 | a mutation batch cancels the pending timer, if any, and starts exactly one new one, which is then the only pending timer |
| Content.ContentScript.TimerFired | extension/src/content/content.ts:76 | the firing timer stops pending, none is left pending, and the page is scanned |
| Content.AtMostOnePending | extension/src/content/content.ts:72-77 | at most one scan is ever pending |
| Worker.Descriptions | extension/src/background/service-worker.ts:54 | the matcher is sent the fields' descriptions, one per field, in field order |
| Worker.ToMatchResult | extension/src/background/service-worker.ts:58-64 | an entry's index, description, key and score are copied; the value is the stored value for the key, or `""` when the key is not stored |
| Worker.MapServerMatches | extension/src/background/service-worker.ts:58-64 | the result has one match per server entry, in the same order |
| Worker.HandleMatchRequest | extension/src/background/service-worker.ts:44-67 | no stored keys or no fields give the empty list; otherwise it fails exactly when the matcher fails, and gives the mapped server entries |
| Worker.ShortCircuitIgnoresMatcher | extension/src/background/service-worker.ts:50-52 | with no keys or no fields the matcher is not consulted: every matcher gives the same empty answer |
| Worker.MatcherSeesDescriptionsAndKeys | extension/src/background/service-worker.ts:54-55 | the matcher is asked about the descriptions and the stored keys and nothing else: two matchers that agree there give the same answer |
| Worker.MatchResponse | extension/src/background/service-worker.ts:19-21 | a failed match request is answered with the empty match list; a successful one with its matches |
| Worker.ResponseValues | extension/src/background/service-worker.ts:58-64 | match i of the answer carries entry i's index and key and the stored value for that key |
| Worker.BadgeText | extension/src/background/service-worker.ts:26 | the badge text is empty exactly when the count is not positive; otherwise it is all decimal digits, with no leading zero, denoting the count: exactly `String(count)` |
| Worker.ServerOnline | extension/src/background/service-worker.ts:34-36 | a failed health check counts as offline; otherwise its answer is passed on |
| Worker.Listener | extension/src/background/service-worker.ts:11-42 | `REQUEST_MATCH` is answered with the match response; `FIELDS_DETECTED` sets the badge of the sending tab, when there is one, and sends no reply; `CHECK_SERVER` is answered with the online flag; other messages do nothing |
| Popup.FieldRow | extension/src/popup/popup.ts:24-38 | a new row's key input holds the key and its value input the value |
| Popup.EntryRows | extension/src/popup/popup.ts:58-60 | one row per entry, in entry order, carrying that entry's key and value |
| Popup.RenderedRows | extension/src/popup/popup.ts:51-62 | empty data renders exactly one empty row; other data renders one row per entry |
| Popup.Collected | extension/src/popup/popup.ts:64-77 | collecting never produces a key twice |
| Popup.CollectRowLookup | extension/src/popup/popup.ts:70-74 | the last row sets its trimmed key to its trimmed value when both are non-empty; for every other key, the rows before it decide |
| Popup.CollectedHasKey | extension/src/popup/popup.ts:67-74 | a key is collected exactly when some row has a non-empty trimmed value and that key as its non-empty trimmed key |
| Popup.CollectedLastRow | extension/src/popup/popup.ts:67-74 | a key's collected value is the trimmed value of the last contributing row with that key: later rows overwrite earlier ones |
| Popup.CollectedTrimmed | extension/src/popup/popup.ts:70-72 | every collected key and value is trimmed and non-empty |
| Popup.CollectedIsClean | extension/src/popup/popup.ts:64-77 | any rows collect to data with distinct, trimmed, non-empty keys and values |
| Popup.CollectEntryRows | extension/src/popup/popup.ts:58-74 | collecting the entry rows of clean data gives back the data |
| Popup.CollectAfterRender | extension/src/popup/popup.ts:51-77 | round trip: for data whose keys and values are trimmed and non-empty, collecting right after rendering gives back the same data |
| Popup.StatusText | extension/src/popup/popup.ts:17-19 | the status reads "online" exactly when the response says online; a missing response reads "offline" |
| Popup.Editor.RenderFields | extension/src/popup/popup.ts:51-62 | after rendering, the container holds exactly the rendered rows |
| Popup.Editor.CollectFields | extension/src/popup/popup.ts:64-77 | the loop over the rows builds exactly the collected data |
| Popup.Editor.AddRow | extension/src/popup/popup.ts:103-105 | the add button appends one empty row and changes no other row |
| Popup.Editor.RemoveRow | extension/src/popup/popup.ts:43 | a row's remove button deletes that row only; the other rows stay, in order |
| Popup.Editor.EditRow | extension/src/popup/popup.ts:31-37 | typing into a row's inputs changes that row only |

## Left out

- The remote matcher, `api.ts` and `storage.ts` are left out. The matcher and the health check are function
  parameters whose `None` result stands for a failure, and the stored data is a parameter.
- The Chrome messaging transport, `chrome.tabs` and the badge colour (`service-worker.ts:29`) are left out.
  Messages sent are recorded in `Content.ContentScript.sent`, and the listener returns the reply it would send.
- The popup's `loadData`, `saveData` and `triggerFill` are left out. They are storage and tab calls around
  `renderFields` and `collectFields`, which are modelled.
- `CSS.escape` and selector strings are left out. Selectors are values, and resolution covers only the two
  shapes `buildSelector` produces.
- Real timers and the delivery of mutation records are left out. Time is not modelled, and the observer's
  callback is `Content.ContentScript.OnMutation`.
- The prototype setter lookup in `setNativeValue` is left out. Framework value tracking is JavaScript object
  machinery, and the write is modelled as direct.
- Concurrency is left out. Overlapping autofills are out, apart from the single interleaving in which a scan
  runs during the await.
- The input value sanitization of the DOM is left out: a written value is stored as is. The one exception is
  the file input's throwing setter.
- Types.Put: stores every key. In JavaScript, `data[key] = value` with the key `__proto__` on a plain object calls the inherited setter and stores nothing. So for that key `Types.Put`, `Popup.CollectedHasKey` and `Popup.CollectAfterRender` promise more than `collectFields` does.
- Filler.OptionOf: an option's label is its `textContent`, stripped and collapsed. HTML's `option.text` also leaves out text inside `script` elements (HTML and SVG) below the option; the model keeps it, because the tree has no namespaces.
- Dom.TextContent: an element's own text comes before all of its children's text. Text between child elements is folded into that leading text, so its position among the children is not modelled.
- Text.Lower: maps only ASCII letters, while `toLowerCase` maps all of Unicode. Non-ASCII case mapping is not
  modelled.
- Types.Keys: lists keys in insertion order. JavaScript lists integer-like keys first, in numeric order, and
  that rule is not modelled.
- Types.Lookup: sees only own properties. A key such as `constructor` would read an inherited value in
  JavaScript, and that is not modelled.
- Filler.ApplyTwice: covers only a first run that completes. A run stopped by a throwing write is not
  compared with a second run.
- Filler.Applied: if the page changes between the lookup and the write, the loop cannot notice. The tree is
  fixed for the loop's duration.

## Findings

| source | as written | input that shows it | evidently intended | confidence | as-written member | corrected member |
|---|---|---|---|---|---|---|
| extension/src/content/detector.ts:11-20 | the positional selector is built relative to `body`, but `document.querySelector` matches it anywhere in the page | `<body><div><span/><div><input/></div></div><div><input/></div></body>`: the second input's selector `div:nth-child(2) > input:nth-child(1)` also matches the first input, which comes first | re-finding the element the selector was built for (the comment at detector.ts:5-6) | not executed | Selectors.PositionalSelectorFindsOtherElement | Selectors.BuiltSelectorResolvesAnchored |

The corrected resolution, `Selectors.ResolveFrom`, descends from `body` along the steps, as an anchored query
would. It provably finds the original element on every page (`Selectors.AnchoredRoundTrip`). The apply loop
still resolves selectors with `document.querySelector`, because that is what `filler.ts:62` does.
`Selectors.ResolvesAtOrBefore` states the guarantee the loop has under that resolution.
