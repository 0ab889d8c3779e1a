# Therapy session note composer, modelled in Dafny

The application records the treatment units of a therapy session. Each unit is
an activity with its billing code, a phase, a sub-task, an assistance level, cues,
deficits and optional parameters. From these units it writes a clinical note. The
model covers:

- the note composer `generateNarrative` (App.tsx:20-219):
  - the vitals sentence;
  - grouping of the units by billing code;
  - merging of the units of one code by a composite key;
  - one sentence per merged group, from six cycling templates and the shipped word lists;
  - the clinical assessment chosen from the most frequent assistance level, deficit and activity;
  - the tolerance sentence built from the pain rating;
  - the blank-part filter and the final join;
- the undo/redo history of the recorded selections (App.tsx:265-285);
- the matrix input builders:
  - the cue encoder `handleAddCue`;
  - the deficit and cue-focus toggles;
  - the unit built by `handleConfirmMatrix` and the reset of the inputs;
- the saved-session preview text (App.tsx:289-293).

The JavaScript behaviour the composer relies on is written out:

- the enumeration order of plain-object keys: keys that are canonical array indices come first in ascending numeric order, then the other keys in order of first assignment;
- `split` (with `indexOf` as the model's helper for it), `join`, a one-character `replace`, `toLowerCase`, `trim`-based blank tests and `parseInt`;
- `includes`-guarded pushes;
- a `reduce` with a strict `>`.

Modules:

- `Text`: string and list built-ins.
- `JsKeys`: plain objects as dictionaries, with their key order.
- `Clinical`: units, vitals, groups and the word lists.
- `Grouping`: the billing-code grouping loop and the composite-key merge.
- `Sentences`: deficit phrases, cue phrases and the six sentence templates.
- `Statistics`: the counting objects, the most-frequent reductions and the assessment table.
- `VitalSigns`: the vitals sentence, `parseInt` and the tolerance sentence.
- `Narrative`: paragraphs and the whole note.
- `Session`: the undo/redo timeline as a value and as a class, and the input builders.

## Behaviour worth noting

- **Ties between equally frequent values.** The code reduces with `counts[a] > counts[b] ? a : b`, so on a tie the later key wins. `Statistics.ReduceIsLastMax` and `Statistics.MostFrequentTieBreak` state this rule.
- **Order of the billing-code paragraphs.** The code enumerates `Object.entries`, so codes that look like array indices (for example "97110") come first, in ascending numeric order. All other codes keep first-seen order. `Narrative.CodeOrder` states both facts.
- **Pain ratings.** A rating that is not a number prints `parseInt`'s NaN, as in "pain controlled at NaN/10". `VitalSigns.ToleranceCases` states this.
- **History stacks.** The code's `history` and `future` grow without bound, and so do the model's.

## Model

| member | source | states |
|---|---|---|
| Text.SplitJoin | App.tsx:95-98 | splitting a join by the same separator gives back the pieces when no piece holds the separator's first character |
| Text.LowerJoin | App.tsx:106 | lower-casing a ", "-joined list equals joining the lower-cased items |
| Text.RemoveFirstAfter | App.tsx:97 | `replace(")", "")` removes exactly the first ')' |
| Text.Dedup | App.tsx:58-60 | the `includes`-guarded pushes end with exactly the elements pushed, each once |
| Text.NonBlankKeepsAll | App.tsx:216-217 | the blank filter keeps a list whose parts are all non-blank unchanged |
| Text.NonBlankSnoc | App.tsx:216-217 | filtering a list extended by one part filters the list, then keeps the part exactly when it is not blank |
| Text.NotBlankAt | App.tsx:217 | a string with a non-white-space character anywhere survives `trim().length > 0` |
| JsKeys.KeyOrder | App.tsx:33-39 | `Object.keys` order: each assigned key exactly once, array-index keys before all others and in non-decreasing value |
| JsKeys.KeyOrderOthers | App.tsx:33-39 | keys that are not array indices enumerate in order of first assignment |
| JsKeys.KeyOrderNoIndices | App.tsx:33-39 | with no array-index key, enumeration order is first-assignment order |
| JsKeys.InsertKey | App.tsx:35 | a new key is added once; the list stays duplicate-free and in key order; a non-index key goes last among the others |
| JsKeys.Record.Set | App.tsx:35-36 | `obj[k] = v` stores `v` under `k`, leaves other entries unchanged, and adds `k` to the keys only when it is new |
| JsKeys.SetKeyOrder | App.tsx:35 | assigning `obj[k]` on an object filled in order `xs` gives the key order of `xs` followed by `k` |
| Clinical.ShippedVocabularyValid | constants.ts:507-541 | the shipped word lists are non-empty, with 7, 6, 5, 4, 6 and 5 entries |
| Clinical.AllDeficits | App.tsx:169 | `flatMap` of the deficits holds exactly the deficits of some unit |
| Clinical.AllSnoc | App.tsx:59-60 | the cues and deficits of one more unit extend the concatenations by that unit's own lists |
| Grouping.WithCpt | App.tsx:34-37 | the units under a code are exactly the units carrying that code |
| Grouping.CptStep | App.tsx:34-37 | one `forEach` step keeps the grouping object's keys in key order and each entry equal to that code's units so far |
| Grouping.GroupByCpt | App.tsx:33-37 | the grouping object holds one entry per code, with that code's units in recorded order, keys in enumeration order |
| Grouping.GroupKeyNotIndex | App.tsx:46 | a composite key holds '-', so it is never an array index and groups keep first-seen order |
| Grouping.PushAllNew | App.tsx:59-60 | pushing every element not yet present equals de-duplicating the extended list |
| Grouping.MergeEnter | App.tsx:47-56 | the group a unit enters is its key's existing group, or a new empty group carrying the unit's phase and assistance |
| Grouping.MergeLeave | App.tsx:57-61 | after the unit's task display, cues and deficits are pushed, the accumulator again holds every merged group seen so far |
| Grouping.GroupForSnoc | App.tsx:57-60 | a unit extends its own key's group with its task display, cues and deficits, each only if absent |
| Grouping.GroupForOther | App.tsx:44-62 | a unit leaves the groups of other keys unchanged |
| Grouping.MergeValues | App.tsx:64 | the values of the final accumulator are the merged groups, in order of first key appearance |
| Grouping.MergeGroups | App.tsx:44-64 | the reduce loop yields exactly the merged groups |
| Grouping.GroupForKeeps | App.tsx:57-60 | a unit's group lists that unit's task display, cues and deficits |
| Grouping.GroupForFrom | App.tsx:57-60 | a group lists only items carried by units of its key, each once |
| Grouping.MergeKeepsEverything | App.tsx:44-62 | every unit's task display, cues and deficits appear in the merged group of its key |
| Grouping.MergeAddsNothing | App.tsx:44-62 | each merged group takes its phase and assistance from a unit of its key, and lists nothing that no unit of its key carried |
| Grouping.KeyFixesPhaseAssist | App.tsx:46 | when phases and assistance levels hold no '-', equal composite keys mean equal phase and assistance |
| Grouping.FieldBeforeDash | App.tsx:46 | the field before the first '-' of a composite key and the rest after it are determined by the key |
| Sentences.DeficitPhraseShapes | App.tsx:69-79 | no deficit gives "functional deficits"; one gives its phrase; two are joined by " and "; three give "a, b, and c" |
| Sentences.FocusTextIsListPhrase | App.tsx:99-107 | the focus text follows the same listing rule, applied to the lower-cased focuses |
| Sentences.BareCue | App.tsx:110 | a cue without '(' is phrased as "<cue> cues" |
| Sentences.CueSegmentEmpty | App.tsx:91-113 | the cue segment is empty exactly when the group has no cues |
| Sentences.SentenceAttachment | App.tsx:120-155 | without cues the sentence ends with "."; templates 0 and 4 attach ", requiring", template 3 ", necessitating", and 1, 2 and 5 a separate "Required" sentence |
| Sentences.DescriptorOnlyOnEven | App.tsx:82-83 | the descriptor affects the sentence only at even positions other than template 4 |
| Sentences.WordsDecideSentence | App.tsx:82-88 | a sentence reads each word list only at position i modulo its length |
| Sentences.ShippedSentencePeriod | App.tsx:116-117 | with the shipped word lists, sentence i + 420 equals sentence i |
| Statistics.CountStep | App.tsx:166 | adding one to a value's count, from 0 when absent, keeps every count equal to the occurrences so far, with keys in enumeration order |
| Statistics.TallyStep | App.tsx:166 | one more occurrence raises that value's count by one and no other count |
| Statistics.CountKeys | App.tsx:165-166 | the counting object lists each value once in key order, with its number of occurrences |
| Statistics.Reduce | App.tsx:167 | the reduction returns one of the keys |
| Statistics.ReduceIsLastMax | App.tsx:167 | the reduction returns a key of maximal count, and the last such key |
| Statistics.ReduceAgree | App.tsx:167 | the reduction reads only the counts of the listed keys |
| Statistics.MostFrequentIsLastMax | App.tsx:164-178 | the chosen value occurs in the list, nothing occurs more often, and no equally frequent value comes after it in key order |
| Statistics.MostFrequentTieBreak | App.tsx:167 | with no index-like value, a tie goes to the equally frequent value seen first latest |
| Statistics.TopKey | App.tsx:165-178 | counting and reducing a list give its most frequent value, or none for an empty list |
| Statistics.BranchOf | App.tsx:184-202 | the decline row exactly when declined; a maintained row exactly when maintained |
| Statistics.BranchTable | App.tsx:184-202 | the seven rows and their assistance buckets, with both directions of each condition |
| Statistics.AssessmentNotBlank | App.tsx:185-200 | every assessment row opens with "Assessment: " and is never blank |
| Statistics.Assess | App.tsx:164-202 | the three counts, three reductions and the if-chain give the assessment paragraph, which is never blank |
| VitalSigns.BuildVitals | App.tsx:24-30 | the pushes and the template give the vitals sentence |
| VitalSigns.VitalsSentenceDropped | App.tsx:24-30 | the vitals sentence is empty exactly when no reading is recorded, otherwise not blank, and never depends on pain |
| VitalSigns.VitalsSentenceAll | App.tsx:25-30 | with all four readings the sentence lists BP, HR, RR and O2 with a percent sign, in that order |
| VitalSigns.VitalsSentenceSingle | App.tsx:28-30 | whichever one of BP, HR, RR or O2 is the only reading recorded stands alone in the sentence with its label, O2 with its percent sign |
| VitalSigns.DigitRun | App.tsx:207 | `parseInt` reads the longest run of digits |
| VitalSigns.NatToStringValue | App.tsx:209-211 | the numeral printed for a number denotes that number |
| VitalSigns.ParseNumeral | App.tsx:207 | `parseInt` reads back every numeral of a natural number |
| VitalSigns.ParseIntWord | App.tsx:207 | `parseInt` gives NaN when no decimal digit follows the leading white space and optional sign, and a number when a digit 1-9 does |
| VitalSigns.ParseLeadingNumeral | App.tsx:207 | `parseInt` skips leading white space and stops at a character that is neither letter nor digit |
| VitalSigns.ComposeTolerance | App.tsx:205-213 | the reassigned tolerance text equals the tolerance sentence and is never blank |
| VitalSigns.ToleranceNotBlank | App.tsx:205-213 | the tolerance sentence is never blank |
| VitalSigns.ToleranceOnPainScale | App.tsx:206-212 | ratings 0 and 2 read as controlled pain; 4 to 10 as fair endurance |
| VitalSigns.ToleranceCases | App.tsx:205-213 | no rating reads "tolerated session well."; ratings above 3 fair endurance; others controlled pain; NaN prints as "NaN/10" |
| Narrative.GroupsParsable | App.tsx:59 | merged groups carry only cues of the units, so they stay decodable |
| Narrative.Paragraphs | App.tsx:39-159 | one paragraph per billing code |
| Narrative.GenerateNarrative | App.tsx:20-219 | the composer's steps yield the note |
| Narrative.ComposeParagraphs | App.tsx:39-159 | mapping over the grouping object's entries yields the paragraphs, in key order |
| Narrative.ComposeParagraph | App.tsx:40-158 | the heading, minutes and merged groups' sentences form the paragraph of one code |
| Narrative.ParagraphNotBlank | App.tsx:158 | a paragraph is never blank, because it holds ':' after its heading |
| Narrative.ParagraphsNotBlank | App.tsx:39-159 | no paragraph is removed by the blank filter |
| Narrative.EmptySessionNote | App.tsx:21 | a session without units gives "No data entered." whatever the vitals, minutes and pain |
| Narrative.NarrativeParts | App.tsx:215-218 | a non-empty session's note joins the vitals sentence (only when some reading is recorded), every paragraph, the assessment and the tolerance sentence with single spaces |
| Narrative.PartsNotBlank | App.tsx:158-213 | the paragraphs, the assessment and the tolerance sentence all survive the blank filter |
| Narrative.AssembleKeeps | App.tsx:216-218 | the filter drops only an empty vitals sentence |
| Narrative.AssessmentIsNotBlank | App.tsx:181-202 | the session's assessment is never blank |
| Narrative.AssembleEnds | App.tsx:216-218 | the note ends with a space and the tolerance sentence |
| Narrative.JoinKeptEnds | App.tsx:216-218 | a non-blank last part is joined last, after a single space |
| Narrative.CodeOrder | App.tsx:33-39 | the paragraph codes are each used code exactly once, in key order; with no index-like code, in order of first use |
| Narrative.ParagraphAt | App.tsx:39-158 | the i-th paragraph opens with a blank line and the i-th code, and is built from exactly the units of that code |
| Session.UndoKeepsTimeline | App.tsx:271-277 | undo moves one snapshot back along the same snapshot sequence, and does nothing without history |
| Session.RedoKeepsTimeline | App.tsx:279-285 | redo moves one snapshot forward along the same snapshot sequence, and does nothing without undone snapshots |
| Session.RedoUndo | App.tsx:271-285 | undo then redo restores selections, history and future |
| Session.UndoRedo | App.tsx:271-285 | redo then undo restores selections, history and future |
| Session.EditThenUndo | App.tsx:265-277 | an edit appends the new snapshot after the present and clears redo; undoing it restores the old selections with the edit redoable |
| Session.Session.constructor | App.tsx:230-236 | a new session has no selections, no history and no future |
| Session.Session.UpdateSelections | App.tsx:265-269 | the present is pushed onto the history, the new selections become current and the future is cleared |
| Session.Session.Undo | App.tsx:271-277 | the state becomes one undo step of the old state; every reachable snapshot stays composable |
| Session.Session.Redo | App.tsx:279-285 | the state becomes one redo step of the old state; every reachable snapshot stays composable |
| Session.Session.ConfirmMatrix | App.tsx:349-377 | without phase or sub-task nothing changes; otherwise the built unit is appended as an undoable edit and the inputs are reset |
| Session.Session.EnterReview | App.tsx:386-390 | the review text is the note of the current selections |
| Session.Remove | App.tsx:323 | the filter keeps every item except the one removed |
| Session.ToggleFlips | App.tsx:321-326 | toggling flips the membership of its item, leaves every other item alone, and keeps the list free of repeats |
| Session.ToggleTwice | App.tsx:342-347 | toggling an absent item twice restores the list; toggling a present item twice moves it to the end |
| Session.AddCueKeeps | App.tsx:328-336 | adding a cue lists the encoded cue once, adds nothing else, and keeps the list decodable |
| Session.EncodedParsable | App.tsx:331 | every encoded cue holds " (" before its focus list |
| Session.CueRoundTrip | App.tsx:331 | decoding an encoded cue gives "<level> <type> cues for" and its focuses lower-cased and listed |
| Session.MakeUnitReadBack | App.tsx:349-365 | a unit exists exactly when phase and sub-task are chosen; the composer reads back the parameters, task display, cues and deficits, with the custom deficit last |
| Session.PreviewShape | App.tsx:289-293 | the preview is never empty; past three units it is the first three tasks joined by ", " followed by "..."; a short session shows its tasks joined by ", ", or "Unnamed Session" when that join is empty |

## Left out

- The React component: the picker screens, modals, view state, styling and `useEffect` re-composition. These are presentation and hold no logic beyond calling the composer.
- Clipboard writes, timers, `window.confirm`, `Date` and the saved-session list. They are I/O or clock reads. Only the preview text (App.tsx:289-293) is modelled.
- `removeCue`, the matrix input setters and `handleVitalsChange`. They are single-field assignments.
- `outcome` and `isOutcome`: the app never sets `outcome`, and `isOutcome` (App.tsx:54, computed from it) is never read, so neither affects the note.
- The activity catalogue and the cue context map in constants.ts. The dictionary of deficit phrases is a parameter of the model, so its entries are not part of it. The shipped word lists are modelled.
- The type declarations in types.ts. They become the datatypes of `Clinical`.
- Narrative.GenerateNarrative: requires every cue to be decodable (`CuesParsable`). A cue with '(' but no " (" makes the source throw on `parts[1]`, and that failure is not modelled.
- Sentences.ShippedSentencePeriod: the 420-step period is proved for the shipped word lists only.
- Grouping.MergeGroups: separate groups whose composite keys collide (a '-' inside a phase or an assistance level) are not modelled as a finding. `Grouping.KeyFixesPhaseAssist` states when keys cannot collide.
- JsKeys.KeyOrder: array-index keys are stated in non-decreasing order of value rather than strictly increasing order. Keys are distinct, so this is the same order.
- Session.CueRoundTrip: the round trip is stated only for levels and types without '(' and for non-empty focus lists without '(', ')' or ','. The shipped level, type and focus options meet the character conditions. An empty focus list, left after every focus is toggled off, is not covered.
- VitalSigns.ParseLeadingNumeral: the character after the numeral is limited to one that is neither a letter nor a digit. Other radix cases of `parseInt` are outside the pain field's use.
- `toLowerCase` is modelled on ASCII letters only. Other characters are left unchanged.
- Object keys inherited from `Object.prototype` (for example "constructor") are not modelled. The counting and grouping objects are treated as empty dictionaries.
- Integers are unbounded. A pain rating larger than 2^53 would lose precision in the source.
