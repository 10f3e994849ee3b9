# aid-gent triage core in Dafny

This project models the deterministic core of the aid-gent medical-triage assistant and proves properties of it. The core does five things:

- **Slot enforcer** (`server/orchestrator/slot_enforcer.py`):
  - merges the conversation state the language model proposes with the previous state;
  - auto-extracts slot values from the user's Thai text (symptoms, duration, "don't know" answers);
  - computes which required or conditionally required slots are still missing, in ask order;
  - asks exactly one not-yet-asked slot per turn, or lets the model's reply through.
- **Model-output parser** (`parse_llm_output` in `server/app.py`): splits the raw completion into the user-facing text and the structured state.
- **Knowledge-base chunker** (`split_len` and `chunk_markdown` in `server/rag/ingest.py`).
- **Browser session index** (`web/lib/sessionIndex.ts`).
- **Keyword emergency detector** (`RedFlagChecker` in `server/redflags/check.py`).

## Modules

| module | models |
|---|---|
| `Wrappers` | `Option` and `Result` |
| `Text` | Python's `str.strip`, `in`, `find`, `rfind`, `replace` and ASCII `lower` |
| `Seqs` | subsequence and distinctness |
| `Sorting` | the stable sort (Python's `list.sort`, JavaScript's `Array.prototype.sort`) as insertion sort, with its characterisation |
| `SlotValues` | slot values, `_is_filled`, `_meaningful`, Python truthiness |
| `Extractors` | `_thai_words_to_number` and the five extractors/normalisers |
| `MissingSlots` | `_get_ask_order`, `compute_missing` and its conditional-rule predicates |
| `StateMerge` | `merge_states` |
| `Enforcer` | `enforce_state` |
| `LlmOutput` | `parse_llm_output` |
| `Ingest` | `split_len`, `chunk_markdown` |
| `SessionIndex` | `read`, `listSessions`, `addSession`, `removeSession`, `touchSession` |
| `RedFlags` | `RedFlagChecker.__init__` and `detect` |

Modelling choices:

- **Imperative code becomes methods.** The extractors mutate the `slots` dict, and the merge, missing-slot, chunker and detector code works in loops. Each loop is a method with loop invariants, proved equal to a specification function; code without a loop (`normalize_unknowns`, `refine_main_symptoms_for_intent`) stays a function. The lemmas then state the source's promises about that function.
- **Slots are values.** `enforce_state` writes the dict back, so value semantics lose nothing observable.
- **Session store and detector are classes.** Their state is updated in place: the stored list, and the compiled rules.
- **Absent intent.** An absent or empty intent is `""`; both are falsy to the source.
- **Asked slots form a set.** The source builds `asked_slots` through Python sets, so their list order is unspecified.

## Model

| member | source | states |
|---|---|---|
| SlotValues.FilledExactly | server/orchestrator/slot_enforcer.py:29-36 | a value is unfilled exactly when it is None, a blank or "null" string, or an empty list; `False` and `0` are filled |
| SlotValues.MeaningfulIsFilled | server/orchestrator/slot_enforcer.py:38-42 | `_meaningful` agrees with `_is_filled` on every value, because booleans are already filled |
| SlotValues.FilledVersusTruthy | server/orchestrator/slot_enforcer.py:29-36 | filled strings and lists are truthy; "null" and every non-empty all-whitespace string are truthy without being filled |
| SlotValues.ListOf | server/orchestrator/slot_enforcer.py:68 | `list(v or [])` fails exactly for a truthy bool or number; a string gives its characters, a list itself, a falsy value `[]` |
| Extractors.ThaiWordsToNumber | server/orchestrator/slot_enforcer.py:20-27 | the replacement loops compute the two-word numbers first, then every number word in table order |
| Extractors.ReplaceAllUnchanged | server/orchestrator/slot_enforcer.py:20-27 | a text mentioning none of the number words is returned unchanged |
| Extractors.ReplaceAllNoStart | server/orchestrator/slot_enforcer.py:20-27 | a text with no character that starts a number word is returned unchanged |
| Extractors.NumberWordBecomesDigits | server/orchestrator/slot_enforcer.py:14-27 | each number word from "ศูนย์" to "สิบสอง", followed by text without a number-word start, becomes its digits and the rest stays |
| Extractors.AutoFillMainSymptoms | server/orchestrator/slot_enforcer.py:47-57 | the keyword loop with its early `break` yields the symptom labels of the text |
| Extractors.MentionedLabelsExactly | server/orchestrator/slot_enforcer.py:52-55 | a label is found exactly when one of its keywords occurs in the stripped text; labels come in table order |
| Extractors.MentionedLabelsDistinct | server/orchestrator/slot_enforcer.py:57 | with distinct table labels no label repeats, so `dict.fromkeys` changes nothing |
| Extractors.SymKeywordLabelsDistinct | server/orchestrator/slot_enforcer.py:5-12 | the keyword table has distinct labels |
| Extractors.SymptomsFromTextOnlyFills | server/orchestrator/slot_enforcer.py:47-57 | a truthy `main_symptoms` is never overwritten; no other key changes; applying it twice equals once |
| Extractors.FoldBooleanSymptoms | server/orchestrator/slot_enforcer.py:59-74 | the fold loop's result, including the TypeError for a truthy bool or number in `main_symptoms` |
| Extractors.AppendTrueFlagsSound | server/orchestrator/slot_enforcer.py:68-72 | the old list is kept as a prefix; only symptoms of flags that are exactly `True` are added, and each such symptom is present afterwards |
| Extractors.AppendTrueFlagsSettled | server/orchestrator/slot_enforcer.py:69-72 | once every true flag's symptom is listed, folding adds nothing |
| Extractors.FoldBooleansIdempotent | server/orchestrator/slot_enforcer.py:59-74 | folding changes only `main_symptoms` and is idempotent |
| Extractors.RefineForIntent | server/orchestrator/slot_enforcer.py:79-92 | refinement changes no key other than `main_symptoms` |
| Extractors.RefineKeepsDomain | server/orchestrator/slot_enforcer.py:79-92 | for `derm_rash` exactly the listed skin labels remain, in order, with the rash label appended when `rash` is `True` and it is absent; for `resp_upper` exactly the listed respiratory labels, in order; other intents keep the list; refining twice equals once |
| Extractors.FilterIn | server/orchestrator/slot_enforcer.py:87 | the comprehension keeps exactly the listed labels in the set, in their order |
| Extractors.FilterInFixed | server/orchestrator/slot_enforcer.py:86-91 | a list already inside the set is kept as is |
| Extractors.RunEndMaximal | server/orchestrator/slot_enforcer.py:101 | the greedy `\d+` and `\s*` runs are maximal |
| Extractors.UnitAtFirst | server/orchestrator/slot_enforcer.py:18 | the unit alternation picks the first alternative that occurs, or fails when none occurs |
| Extractors.MatchAt | server/orchestrator/slot_enforcer.py:101 | a duration match starts with a digit, has a non-empty number and one of the listed units |
| Extractors.SearchFromLeftmost | server/orchestrator/slot_enforcer.py:101 | `re.search` returns the leftmost match, or none when no position matches |
| Extractors.ScanDuration | server/orchestrator/slot_enforcer.py:101 | the scanning loop finds the leftmost match, or reports that no position matches |
| Extractors.AutoFillDuration | server/orchestrator/slot_enforcer.py:94-104 | the duration extractor as a method over the slots |
| Extractors.DurationFromTextOnlyFills | server/orchestrator/slot_enforcer.py:94-104 | a truthy duration is never overwritten; no other key changes; idempotent; a written value is "number unit" of the leftmost match |
| Extractors.DurationWritten | server/orchestrator/slot_enforcer.py:100-104 | when the normalised text has a match, the slot receives "number unit" of it |
| Extractors.DurationOfThreeDays | server/orchestrator/slot_enforcer.py:94-104 | the answer "3 วัน" fills an absent duration with itself |
| Extractors.DurationOfThreeDaysInWords | server/orchestrator/slot_enforcer.py:94-104 | the answer "สามวัน" fills an absent duration with "3 วัน": the number word is normalised before matching |
| Extractors.UnknownsOnlyOnMarker | server/orchestrator/slot_enforcer.py:106-112 | the three fever keys change only when a marker occurs in the lower-cased text; nothing else changes; idempotent |
| MissingSlots.IndexOf | server/orchestrator/slot_enforcer.py:138 | `order.index(x)` is the first position holding `x` |
| MissingSlots.NoPolicyNothingMissing | server/orchestrator/slot_enforcer.py:114-118 | an intent without a policy has nothing missing |
| MissingSlots.DefaultAskOrder | server/orchestrator/slot_enforcer.py:44-45 | without `ask_order` and with distinct required slots the sort changes nothing: the unfilled required slots come first, in their required order, then the conditional ones |
| MissingSlots.ByRankIsPreorder | server/orchestrator/slot_enforcer.py:138 | the sort key orders names by a total preorder |
| MissingSlots.RequiredMissing | server/orchestrator/slot_enforcer.py:120 | the comprehension keeps exactly the unfilled required names |
| MissingSlots.RequiredMissingInOrder | server/orchestrator/slot_enforcer.py:120 | with distinct required slots the unfilled ones keep their order in `required_slots` |
| MissingSlots.AppendUnfilledExactly | server/orchestrator/slot_enforcer.py:133-135 | the inner loop adds exactly the unfilled names, and never a duplicate |
| MissingSlots.AddConditionalExactly | server/orchestrator/slot_enforcer.py:123-135 | the rule loop adds exactly the unfilled names of rules whose predicate holds, and never a duplicate |
| MissingSlots.FailingRuleAddsNothing | server/orchestrator/slot_enforcer.py:124-131 | a rule whose predicate is false or raises adds nothing |
| MissingSlots.ComputeMissing | server/orchestrator/slot_enforcer.py:114-139 | the result lists only unfilled names, sorted by rank in the ask order |
| MissingSlots.MissingUnfilled | server/orchestrator/slot_enforcer.py:114-139 | every name reported missing is unfilled |
| MissingSlots.MissingExactly | server/orchestrator/slot_enforcer.py:114-139 | a name is missing exactly when it is unfilled and either required or named by a rule that holds |
| MissingSlots.MissingOrder | server/orchestrator/slot_enforcer.py:137-138 | sorted by ask-order rank; equal ranks, including every unlisted name at 999, keep encounter order; a permutation of the unsorted list |
| MissingSlots.AskOrderExample | server/orchestrator/slot_enforcer.py:137-138 | required `[a, b, c]` with ask order `[c, a, b]` and `b` filled gives `[c, a]` |
| Sorting.SortPermutes | server/orchestrator/slot_enforcer.py:138 | sorting keeps the same elements, as often as before |
| Sorting.SortSorted | server/orchestrator/slot_enforcer.py:138 | under a total preorder the result is sorted |
| Sorting.SortStable | server/orchestrator/slot_enforcer.py:138 | equivalent elements keep their relative order |
| Sorting.SortOfSorted | server/orchestrator/slot_enforcer.py:138 | sorting an already sorted list changes nothing |
| StateMerge.MergeStates | server/orchestrator/slot_enforcer.py:141-193 | the reachable part of `merge_states`, as a method with the merge and drop loops |
| StateMerge.MergeSlotValues | server/orchestrator/slot_enforcer.py:155-159 | the loop overwrites exactly the keys whose new value is meaningful |
| StateMerge.PruneSlots | server/orchestrator/slot_enforcer.py:174-181 | the drop loop removes the other domain's keys, except the general ones, and then `main_symptoms` |
| StateMerge.ResolveIntentFacts | server/orchestrator/slot_enforcer.py:143-152 | the resolved intent is never empty; a set, non-"uncertain" new intent wins; otherwise a set previous intent stays |
| StateMerge.UncertainCountsAsChange | server/orchestrator/slot_enforcer.py:147-151 | a new "uncertain" after a set intent keeps the old intent but still counts as a change and clears the asked slots |
| StateMerge.MergeNeverErases | server/orchestrator/slot_enforcer.py:155-159 | within an intent a slot is replaced only by a meaningful new value; absent or unmeaningful new values keep the old one |
| StateMerge.MergeStoresFalse | server/orchestrator/slot_enforcer.py:157-159 | a new `False` or `0` is always stored, unless an intent change drops its key |
| StateMerge.IntentChangeResets | server/orchestrator/slot_enforcer.py:161-191 | an intent change clears the asked slots and removes `main_symptoms` and the other domain's keys; every other merged key survives |
| StateMerge.AskedGrowsWithinIntent | server/orchestrator/slot_enforcer.py:188-191 | without an intent change the asked slots are the union of both states, so they only grow |
| Enforcer.EnforceState | server/orchestrator/slot_enforcer.py:222-269 | the alias loop and the extractor calls compute the turn, failing only when an extractor raises |
| Enforcer.AliasesOnlyAdd | server/orchestrator/slot_enforcer.py:236-238 | the alias loop never overwrites or removes a key, and only adds canonical keys |
| Enforcer.AliasTableCopies | server/orchestrator/slot_enforcer.py:231-238 | each alias value reaches its canonical slot exactly when that slot is absent |
| Enforcer.NotAsked | server/orchestrator/slot_enforcer.py:250 | keeps exactly the missing slots not asked before |
| Enforcer.NotAskedSubsequence | server/orchestrator/slot_enforcer.py:250 | the filter keeps a subsequence of the missing slots |
| Enforcer.NotAskedSorted | server/orchestrator/slot_enforcer.py:250 | filtering a sorted list leaves it sorted |
| Enforcer.ReportedMissing | server/orchestrator/slot_enforcer.py:247-254 | the reported missing slots are the policy's missing slots of the extracted slots, less the asked ones |
| Enforcer.AskedSlotComesFirst | server/orchestrator/slot_enforcer.py:247-258 | the reported missing slots stay sorted by ask-order rank, and the asked slot ranks no later than any other missing, not-yet-asked slot |
| Enforcer.QuestionFor | server/orchestrator/slot_enforcer.py:264-265 | the question is never empty: the configured text when present, else the generic question |
| Enforcer.OneQuestionPerTurn | server/orchestrator/slot_enforcer.py:257-269 | an asking turn asks the first missing, not-yet-asked slot, records it and withholds SOAP; otherwise the model's reply passes through |
| Enforcer.MissingAfterTurn | server/orchestrator/slot_enforcer.py:247-255 | a slot is reported missing exactly when the policy needs it and it was not asked; the completion flag holds exactly when none is left |
| Enforcer.TurnFailsOnlyInExtractors | server/orchestrator/slot_enforcer.py:240-245 | a turn fails exactly when an extractor raises on the merged slots |
| Enforcer.NoPolicyPassesThrough | server/orchestrator/slot_enforcer.py:247-269 | for an intent without a policy nothing is missing, the required slots count as filled, nothing is asked and the model's reply passes through |
| Enforcer.NoRepeatedQuestion | server/orchestrator/slot_enforcer.py:248-260 | a slot asked in one turn is not asked in the next unless the intent changes |
| Text.StripFacts | server/orchestrator/slot_enforcer.py:33 | `strip` cuts only whitespace, leaves non-whitespace ends, and gives "" exactly for all-whitespace text |
| Text.StripIndices | server/app.py:96 | the stripped text is a slice whose cut-off ends are whitespace |
| Text.FindFacts | server/app.py:92-93 | `find` gives the first occurrence, or -1 when there is none |
| Text.RFindFacts | server/app.py:107 | `rfind` gives the last occurrence, or -1 when there is none |
| LlmOutput.MissingMarkerFallback | server/app.py:92-116 | without both markers the whole text goes to the user and the state is `{}` |
| LlmOutput.UserViewBetweenMarkers | server/app.py:92-96 | the user view is a slice starting right after the first `[USER_VIEW]` and ending by the first `[STATE_JSON]`, with no surrounding whitespace; it is empty when the markers are out of order |
| LlmOutput.FenceTrimmed | server/app.py:99-100 | a state text fenced on both sides keeps only the fence-free text between the first two fences |
| LlmOutput.StateDecoding | server/app.py:102-112 | strict decoding, then the outermost `{...}`, then `{}` |
| LlmOutput.BracedIsOutermost | server/app.py:106-108 | `{...}` runs from the first `{` to the last `}`, and exists exactly when some `{` precedes some `}` |
| LlmOutput.StateComesFromRaw | server/app.py:83-118 | parsing never fails: the state is `{}` or the decoding of a contiguous piece of the raw text |
| LlmOutput.StateSource | server/app.py:97-112 | a decoded state comes from a slice of the raw text |
| Ingest.SplitLen | server/rag/ingest.py:38-46 | the windowing loop produces one slice per window |
| Ingest.SplitFromWindows | server/rag/ingest.py:42-45 | the pieces the loop cuts from a start on are the texts of the windows from that start |
| Ingest.NextStart | server/rag/ingest.py:45 | the next start always advances, to `end - overlap` or to `end` |
| Ingest.WindowsEnds | server/rag/ingest.py:41-45 | there is no window exactly when the text is empty; the first window starts at 0; with a non-negative overlap the last one ends at the text's end |
| Ingest.WindowsSized | server/rag/ingest.py:43 | each window is `target` long, or shorter where the text ends |
| Ingest.WindowsLinked | server/rag/ingest.py:45 | each window starts where the previous one's update puts it |
| Ingest.SplitPieces | server/rag/ingest.py:38-46 | an empty text gives `[]`; every piece is a contiguous slice of 1 to `target` characters; pieces run from 0 to the end of the text |
| Ingest.SplitOverlaps | server/rag/ingest.py:42-45 | starts strictly increase; consecutive pieces overlap by exactly `overlap`, or are adjacent when that would not advance |
| Ingest.WindowCovering | server/rag/ingest.py:42-45 | with a non-negative overlap every character lies in some piece |
| Ingest.SplitJoins | server/rag/ingest.py:38-46 | without overlap, joining the pieces gives back the text |
| Ingest.ChunkMarkdown | server/rag/ingest.py:15-36 | the buffer loop cuts each heading section separately and drops blank pieces |
| Ingest.Flush | server/rag/ingest.py:25-28 | a flush appends the pieces of the joined, stripped buffer |
| Ingest.ScanStep | server/rag/ingest.py:22-32 | after each token the pieces are those of the finished sections and the buffer is the open section: a heading flushes and reopens it, an inline token adds a line |
| Ingest.NonBlank | server/rag/ingest.py:36 | keeps exactly the pieces that are not blank |
| Ingest.ChunkWithinSection | server/rag/ingest.py:22-36 | every piece is a slice, at most `target` long, of one section's text, so no piece mixes two sections; none is blank |
| Ingest.SectionsPartition | server/rag/ingest.py:22-32 | there is one section more than headings, and together the sections hold every inline line once, in order |
| SessionIndex.Store.ListSessions | web/lib/sessionIndex.ts:25-27 | the stored entries, rearranged, most recently updated first; without a window or a stored list it is `[]` |
| SessionIndex.ByRecency | web/lib/sessionIndex.ts:26 | the sorted list is a permutation, ordered by `updatedAt` descending |
| SessionIndex.ByRecencyStable | web/lib/sessionIndex.ts:26 | entries with the same `updatedAt` keep their stored order |
| SessionIndex.NewerIsPreorder | web/lib/sessionIndex.ts:26 | the comparator is a total preorder |
| SessionIndex.Store.AddSession | web/lib/sessionIndex.ts:29-34 | stores `meta` in front of the entries with other ids, and a later read returns exactly that list (just `[meta]` on an empty store); without a window nothing is written |
| SessionIndex.AddedFirst | web/lib/sessionIndex.ts:29-34 | after adding, `meta` comes first, no other entry has its id, and the others keep their order |
| SessionIndex.Store.RemoveSession | web/lib/sessionIndex.ts:36-39 | stores the entries with other ids, which a later read returns; without a window nothing is written |
| SessionIndex.WithoutIdExactly | web/lib/sessionIndex.ts:36-39 | filtering removes every entry with the id and keeps every other entry in order |
| SessionIndex.Store.TouchSession | web/lib/sessionIndex.ts:41-48 | stamps the first entry with the id and writes back, so a later read returns the stamped list; with no such entry nothing is written |
| SessionIndex.FirstIndexFacts | web/lib/sessionIndex.ts:43 | `findIndex` gives the first entry with the id, or -1 when none has it |
| SessionIndex.TouchedOnlyStamps | web/lib/sessionIndex.ts:41-48 | touching changes only `updatedAt` of that first entry |
| RedFlags.RedFlagChecker.constructor | server/redflags/check.py:7-13 | the rules keep the file's order |
| RedFlags.RedFlagChecker.Detect | server/redflags/check.py:15-29 | the nested loops with their `break`s compute the scan; blank or missing text is never an emergency; `is_emergency` is exactly "label set and non-empty" |
| RedFlags.RedFlagChecker.FirstMatching | server/redflags/check.py:22-26 | the inner loop stops at the first matching pattern |
| RedFlags.FirstMatchNone | server/redflags/check.py:22-26 | no pattern is found exactly when none matches |
| RedFlags.FirstMatchIsFirst | server/redflags/check.py:22-26 | the found pattern is the earliest matching one |
| RedFlags.EarliestRuleWins | server/redflags/check.py:21-28 | with non-empty labels, the label is the earliest matching rule's, and the only trigger is that rule's first matching pattern |
| RedFlags.NoMatchNoLabel | server/redflags/check.py:19-29 | when nothing matches there is no label and no trigger |

## Left out

- **External code and I/O are not modelled.**
  - JSON decoding in `parse_llm_output` is the parameter `decode`.
  - The regular-expression search of the red-flag rules is the parameter `matches`. Pattern compile errors and YAML loading are not modelled; labels are taken to be strings.
  - The Markdown parser is reduced to a token stream of `HeadingOpen`, `Inline` and `Other`.
  - `ingest_all` and `iter_docs` (file system, front matter, embeddings, upsert) are not modelled.
  - localStorage is the `Store` fields, and the clock is the parameter `now`.
- **Slot values** are None, strings, booleans, integers and lists of strings. Nested dicts, sets, tuples and floats are not modelled.
- **Conditional requirements.** The predicates are a datatype, not arbitrary Python. It covers a slot's truthiness, equality of a slot with a constant, `True`/`False`, `not`, `and` and `or`. The textual `true`→`True` / `false`→`False` rewrite before `eval` is not modelled.
- **Character classes and case folding.**
  - `\d` is ASCII and Thai digits only.
  - `lower()` folds ASCII letters only; Thai has no case.
  - Strings are sequences of code points, with no normalisation.
- **Conversation state.** Only `intent`, `slots`, `asked_slots`, `missing_slots`, `required_slots_filled`, `soap_ready` and `soap_json` are modelled. Other keys (red-flag fields, citations) pass through the source untouched.
- **Unreachable code.** The code after the `return` in `merge_states` (lines 195-220) is never reached and is not modelled.
- **Unused counter.** `char_count` in `chunk_markdown` is written but never read, and is not modelled.
- **Session entries.** The optional `intent` of a session entry is `""` when absent.
  - Stored JSON that parses to something other than an array is not modelled.
  - `localeCompare` is taken as code-point order, which is what it gives for ISO timestamps.
  - Without a browser window, `write` throws. `AddSession` and `RemoveSession` then report `ok == false` and change nothing.
- Ingest.SplitLen: requires `target > 0`. With `target <= 0` the source loops forever on a non-empty text when `overlap >= target`; when `overlap < target` it ends, and Python's negative slicing then gives pieces such as `split_len("abc", -1, -2) == ["ab", "", ""]`. Neither case is modelled.
- Ingest.WindowsEnds: the last window reaches the end of the text only for a non-negative `overlap`. A negative overlap skips characters and can stop short, and the model states no more for it.
- MissingSlots.DefaultAskOrder: assumes at most 1000 required slots. A required slot at index 1000 or later would rank after every unlisted name at 999, and the sort would move it.
- Extractors.MatchAt: reads the duration pattern greedily. That this agrees with the regex's backtracking rests on inspection of the unit list, and is not proved.
